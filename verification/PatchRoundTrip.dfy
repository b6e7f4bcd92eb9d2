/** utils/check-style.py: when reading back what was written gives the same patches. */
module PatchRoundTrip {
  import opened Wrappers
  import opened Sequences
  import opened PatchSet

  // ---------- lines of a written text ----------

  function Ended(lines: seq<string>): (s: seq<string>)
    ensures |s| == |lines| && forall i :: 0 <= i < |s| ==> s[i] == lines[i] + "\n"
  {
    if lines == [] then [] else [lines[0] + "\n"] + Ended(lines[1..])
  }

  lemma EndedConcat(a: seq<string>, b: seq<string>)
    ensures Ended(a + b) == Ended(a) + Ended(b)
  {
  }

  lemma ConcatText(a: seq<string>, b: seq<string>, rest: seq<string>)
    ensures Ended(a + b) + rest == Ended(a) + (Ended(b) + rest)
  {
    EndedConcat(a, b);
    assert Ended(a) + Ended(b) + rest == Ended(a) + (Ended(b) + rest);
  }

  lemma ConsText(line: string, lines: seq<string>, rest: seq<string>)
    ensures Ended([line] + lines) + rest == [line + "\n"] + (Ended(lines) + rest)
  {
    assert ([line] + lines)[1..] == lines;
  }

  lemma {:induction false} SplitOneLine(before: string, line: string, rest: string)
    requires OneLine(line)
    ensures SplitFrom(before, line + "\n" + rest) == [before + line + "\n"] + SplitFrom("", rest)
    decreases |line|
  {
    var text := line + "\n" + rest;
    if line == "" {
      assert text[0] == '\n' && text[1..] == rest;
      assert before + line == before;
    } else {
      assert text[0] == line[0] && line[0] in line && text[1..] == line[1..] + "\n" + rest;
      SplitOneLine(before + [line[0]], line[1..], rest);
      assert before + [line[0]] + line[1..] == before + line;
    }
  }

  lemma {:induction false} SplitUnlines(lines: seq<string>)
    requires forall i :: 0 <= i < |lines| ==> OneLine(lines[i])
    ensures SplitLines(Unlines(lines)) == Ended(lines)
  {
    SplitFromUnlines(lines);
    assert SplitFrom("", "") == [];
  }

  lemma {:induction false} SplitFromUnlines(lines: seq<string>)
    requires forall i :: 0 <= i < |lines| ==> OneLine(lines[i])
    ensures SplitFrom("", Unlines(lines)) == Ended(lines)
  {
    if lines != [] {
      SplitOneLine("", lines[0], Unlines(lines[1..]));
      SplitFromUnlines(lines[1..]);
      assert "" + lines[0] + "\n" == lines[0] + "\n";
    }
  }

  // ---------- each kind of line is recognised ----------

  lemma AfterItself(prefix: string, text: string)
    requires OneLine(text)
    ensures After(prefix, prefix + text + "\n") == Some(text)
  {
    var line := prefix + text + "\n";
    assert line[|prefix|..] == text + "\n";
    assert (text + "\n")[..|text|] == text;
    assert prefix <= line;
  }

  lemma OtherFirst(prefix: string, line: string)
    requires prefix != "" && (line == "" || line[0] != prefix[0])
    ensures After(prefix, line) == None && ReadFixed(prefix, line) == None
  {
  }

  /** Only a prefix that holds a newline reaches past the text of a line. */
  lemma PastText(more: string, text: string)
    requires more <= text + "\n"
    ensures more <= text || '\n' in more
  {
    if |more| <= |text| {
      assert more == (text + "\n")[..|more|] == text[..|more|];
    } else {
      assert more == text + "\n";
      assert more[|text|] == '\n';
    }
  }

  /** A marked line reads as a file header exactly when its text starts with the rest of the header's mark. */
  lemma LongerPrefix(mark: string, more: string, text: string)
    requires OneLine(text) && OneLine(more)
    ensures mark + more <= mark + text + "\n" <==> more <= text
  {
    var line := mark + text + "\n";
    if mark + more <= line {
      assert line[|mark|..] == text + "\n";
      assert (mark + more)[|mark|..] == more;
      assert more == line[|mark|..|mark| + |more|] == (text + "\n")[..|more|];
      PastText(more, text);
    }
    if more <= text {
      assert text == more + text[|more|..];
      assert line == (mark + more) + (text[|more|..] + "\n");
    }
  }

  lemma StepSrcName(s: Reader, name: string)
    requires OneLine(name)
    ensures Step(s, "--- " + name + "\n") == Ok(SetSrc(s, name))
  {
    AfterItself("--- ", name);
  }

  lemma StepDstName(s: Reader, name: string)
    requires OneLine(name)
    ensures Step(s, "+++ " + name + "\n") == SetDst(s, name)
  {
    AfterItself("+++ ", name);
    OtherFirst("--- ", "+++ " + name + "\n");
  }

  lemma StepBodyLine(s: Reader, line: Line)
    requires LineOk(line)
    ensures Step(s, Mark(line.kind) + line.text + "\n") == AddLine(s, line)
    ensures !IsHead(Mark(line.kind) + line.text + "\n")
    ensures After(Mark(line.kind), Mark(line.kind) + line.text + "\n") == Some(line.text)
  {
    var full := Mark(line.kind) + line.text + "\n";
    AfterItself(Mark(line.kind), line.text);
    assert full[0] == Mark(line.kind)[0];
    OtherFirst("@@ -", full);
    assert ReadField("@@ -", full) == None;
    match line.kind
    case Src =>
      LongerPrefix("-", "-- ", line.text);
      assert "-" + "-- " == "--- ";
      OtherFirst("+++ ", full);
    case Dst =>
      LongerPrefix("+", "++ ", line.text);
      assert "+" + "++ " == "+++ ";
      OtherFirst("--- ", full);
      OtherFirst("-", full);
    case Both =>
      OtherFirst("--- ", full);
      OtherFirst("+++ ", full);
      OtherFirst("-", full);
      OtherFirst("+", full);
  }

  // ---------- the chunk header ----------

  lemma {:induction false} CountDigits(digits: string, rest: string)
    requires AllDigits(digits) && (rest == "" || !IsDigit(rest[0]))
    ensures DigitCount(digits + rest) == |digits|
  {
    if digits == "" {
      assert digits + rest == rest;
    } else {
      CountDigits(digits[1..], rest);
      assert (digits + rest)[1..] == digits[1..] + rest;
    }
  }

  /** A printed field is read back, whatever follows it. */
  lemma FieldReads(fixed: string, n: nat, rest: string)
    requires rest != "" && !IsDigit(rest[0])
    ensures ReadField(fixed, fixed + Digits(n) + rest) == Some((n, rest))
  {
    var s := fixed + Digits(n) + rest;
    assert s[|fixed|..] == Digits(n) + rest;
    CountDigits(Digits(n), rest);
    NumberOfDigits(n);
    assert (Digits(n) + rest)[..|Digits(n)|] == Digits(n) && (Digits(n) + rest)[|Digits(n)|..] == rest;
  }

  /** The header a chunk is written with reads back as its four numbers. */
  lemma HeaderReads(chunk: Chunk, src_len: nat, dst_len: nat)
    requires chunk.src_pos >= 0 && chunk.dst_pos >= 0
    ensures ReadHeader(HeaderLine(chunk, src_len, dst_len) + "\n") ==
      Some(Header(chunk.src_pos, src_len, chunk.dst_pos, dst_len))
  {
    var rest4 := " @@" + "\n";
    var rest3 := "," + Digits(dst_len) + rest4;
    var rest2 := " +" + Digits(chunk.dst_pos) + rest3;
    var rest1 := "," + Digits(src_len) + rest2;
    assert rest4[0] == ' ' && rest3[0] == ',' && rest2[0] == ' ' && rest1[0] == ',';
    FieldReads("@@ -", chunk.src_pos, rest1);
    FieldReads(",", src_len, rest2);
    FieldReads(" +", chunk.dst_pos, rest3);
    FieldReads(",", dst_len, rest4);
    HeaderText(chunk, src_len, dst_len);
    assert " @@" <= rest4;
    HeaderFrom(HeaderLine(chunk, src_len, dst_len) + "\n", chunk.src_pos, rest1, src_len, rest2, chunk.dst_pos, rest3,
      dst_len, rest4);
  }

  lemma HeaderFrom(line: string, src_pos: nat, rest1: string, src_len: nat, rest2: string, dst_pos: nat, rest3: string,
                   dst_len: nat, rest4: string)
    requires ReadField("@@ -", line) == Some((src_pos, rest1)) && ReadField(",", rest1) == Some((src_len, rest2))
    requires ReadField(" +", rest2) == Some((dst_pos, rest3)) && ReadField(",", rest3) == Some((dst_len, rest4))
    requires " @@" <= rest4
    ensures ReadHeader(line) == Some(Header(src_pos, src_len, dst_pos, dst_len))
  {
  }

  /** The header, field by field from the right. */
  lemma HeaderText(chunk: Chunk, src_len: nat, dst_len: nat)
    requires chunk.src_pos >= 0 && chunk.dst_pos >= 0
    ensures HeaderLine(chunk, src_len, dst_len) + "\n" ==
      "@@ -" + Digits(chunk.src_pos)
        + ("," + Digits(src_len) + (" +" + Digits(chunk.dst_pos) + ("," + Digits(dst_len) + (" @@" + "\n"))))
  {
    var a := "@@ -" + Digits(chunk.src_pos);
    var b := a + "," + Digits(src_len);
    var c := b + " +" + Digits(chunk.dst_pos);
    var d := c + "," + Digits(dst_len);
    var rest4 := " @@" + "\n";
    assert HeaderLine(chunk, src_len, dst_len) + "\n" == d + rest4;
    Regroup4(c, ",", Digits(dst_len), rest4);
    Regroup4(b, " +", Digits(chunk.dst_pos), "," + Digits(dst_len) + rest4);
    Regroup4(a, ",", Digits(src_len), " +" + Digits(chunk.dst_pos) + ("," + Digits(dst_len) + rest4));
  }

  lemma StepHeader(s: Reader, chunk: Chunk, src_len: nat, dst_len: nat)
    requires chunk.src_pos >= 0 && chunk.dst_pos >= 0
    ensures Step(s, HeaderLine(chunk, src_len, dst_len) + "\n") == AddChunk(s, chunk.(lines := []))
  {
    var line := HeaderLine(chunk, src_len, dst_len) + "\n";
    assert line[0] == '@';
    OtherFirst("--- ", line);
    OtherFirst("+++ ", line);
    HeaderReads(chunk, src_len, dst_len);
  }

  // ---------- whole patches ----------

  lemma ParseStep(s: Reader, line: string, rest: seq<string>)
    requires Step(s, line).Ok?
    ensures ParseFrom(s, [line] + rest) == ParseFrom(Step(s, line).value, rest)
  {
    assert ([line] + rest)[1..] == rest;
  }

  lemma Nothing<T>(s: seq<T>)
    ensures s + [] == s && [] + s == s
  {
  }

  lemma HeadAndTail<T>(s: seq<T>, t: seq<T>)
    requires t != []
    ensures s + [t[0]] + t[1..] == s + t
  {
  }

  /** Where the current chunk is: the last chunk of the patch being read, or an earlier one while it has none. */
  function At(done: seq<Patch>, patch: Patch, before: Option<(nat, nat)>): Reader
    requires ChunkExists(Parser(done, before))
  {
    if patch.chunks == [] then Parser(done + [patch], before)
    else Parser(done + [patch], Some((|done|, |patch.chunks| - 1)))
  }

  lemma AddLineAt(done: seq<Patch>, patch: Patch, before: Option<(nat, nat)>, front: seq<Chunk>, chunk: Chunk,
                  line: Line)
    requires ChunkExists(Parser(done, before)) && patch.chunks == front + [chunk]
    ensures AddLine(At(done, patch, before), line)
         == Ok(At(done, patch.(chunks := front + [chunk.(lines := chunk.lines + [line])]), before))
  {
    var chunk' := chunk.(lines := chunk.lines + [line]);
    assert patch.chunks[|front| := chunk'] == front + [chunk'];
    assert (done + [patch])[|done| := patch.(chunks := front + [chunk'])] ==
      done + [patch.(chunks := front + [chunk'])];
  }

  lemma AddChunkAt(done: seq<Patch>, patch: Patch, before: Option<(nat, nat)>, chunk: Chunk)
    requires ChunkExists(Parser(done, before))
    ensures AddChunk(At(done, patch, before), chunk) == Ok(At(done, patch.(chunks := patch.chunks + [chunk]), before))
  {
    var patch' := patch.(chunks := patch.chunks + [chunk]);
    assert (done + [patch])[|done| := patch'] == done + [patch'];
  }

  lemma {:induction false} BodyParses(done: seq<Patch>, patch: Patch, before: Option<(nat, nat)>, front: seq<Chunk>,
                                      chunk: Chunk, lines: seq<Line>, rest: seq<string>)
    requires ChunkExists(Parser(done, before)) && patch.chunks == front + [chunk]
    requires forall i :: 0 <= i < |lines| ==> LineOk(lines[i])
    ensures ParseFrom(At(done, patch, before), Ended(BodyLines(lines)) + rest)
         == ParseFrom(At(done, patch.(chunks := front + [chunk.(lines := chunk.lines + lines)]), before), rest)
    decreases |lines|
  {
    if lines == [] {
      Nothing(chunk.lines);
      Nothing(rest);
    } else {
      var longer := chunk.(lines := chunk.lines + [lines[0]]);
      BodyStep(done, patch, before, front, chunk, lines, rest);
      BodyParses(done, patch.(chunks := front + [longer]), before, front, longer, lines[1..], rest);
      HeadAndTail(chunk.lines, lines);
    }
  }

  lemma BodyStep(done: seq<Patch>, patch: Patch, before: Option<(nat, nat)>, front: seq<Chunk>, chunk: Chunk,
                 lines: seq<Line>, rest: seq<string>)
    requires ChunkExists(Parser(done, before)) && patch.chunks == front + [chunk]
    requires lines != [] && LineOk(lines[0])
    ensures ParseFrom(At(done, patch, before), Ended(BodyLines(lines)) + rest)
         == ParseFrom(At(done, patch.(chunks := front + [chunk.(lines := chunk.lines + [lines[0]])]), before),
                      Ended(BodyLines(lines[1..])) + rest)
  {
    var line := Mark(lines[0].kind) + lines[0].text + "\n";
    StepBodyLine(At(done, patch, before), lines[0]);
    AddLineAt(done, patch, before, front, chunk, lines[0]);
    ParseStep(At(done, patch, before), line, Ended(BodyLines(lines[1..])) + rest);
    BodyText(lines, rest);
  }

  lemma BodyText(lines: seq<Line>, rest: seq<string>)
    requires lines != []
    ensures Ended(BodyLines(lines)) + rest ==
      [Mark(lines[0].kind) + lines[0].text + "\n"] + (Ended(BodyLines(lines[1..])) + rest)
  {
    ConsText(Mark(lines[0].kind) + lines[0].text, BodyLines(lines[1..]), rest);
  }

  lemma ChunkParses(done: seq<Patch>, patch: Patch, before: Option<(nat, nat)>, chunk: Chunk, rest: seq<string>)
    requires ChunkExists(Parser(done, before)) && ChunkOk(chunk)
    ensures ParseFrom(At(done, patch, before), Ended(ChunkLines(chunk)) + rest)
         == ParseFrom(At(done, patch.(chunks := patch.chunks + [chunk]), before), rest)
  {
    var line := ChunkHeader(chunk) + "\n";
    var tail := Ended(BodyLines(chunk.lines)) + rest;
    var empty := chunk.(lines := []);
    StepHeader(At(done, patch, before), chunk, |SrcLines(chunk.lines)|, |DstLines(chunk.lines)|);
    AddChunkAt(done, patch, before, empty);
    ParseStep(At(done, patch, before), line, tail);
    ConsText(ChunkHeader(chunk), BodyLines(chunk.lines), rest);
    BodyParses(done, patch.(chunks := patch.chunks + [empty]), before, patch.chunks, empty, chunk.lines, rest);
    Nothing(chunk.lines);
  }

  lemma {:induction false} ChunksParse(done: seq<Patch>, patch: Patch, before: Option<(nat, nat)>, chunks: seq<Chunk>,
                                       rest: seq<string>)
    requires ChunkExists(Parser(done, before)) && forall i :: 0 <= i < |chunks| ==> ChunkOk(chunks[i])
    ensures ParseFrom(At(done, patch, before), Ended(ChunksLines(chunks)) + rest)
         == ParseFrom(At(done, patch.(chunks := patch.chunks + chunks), before), rest)
    decreases |chunks|
  {
    if chunks == [] {
      Nothing(patch.chunks);
      Nothing(rest);
    } else {
      ChunksText(chunks, rest);
      ChunkParses(done, patch, before, chunks[0], Ended(ChunksLines(chunks[1..])) + rest);
      ChunksParse(done, patch.(chunks := patch.chunks + [chunks[0]]), before, chunks[1..], rest);
      HeadAndTail(patch.chunks, chunks);
    }
  }

  lemma ChunksText(chunks: seq<Chunk>, rest: seq<string>)
    requires chunks != []
    ensures Ended(ChunksLines(chunks)) + rest ==
      Ended(ChunkLines(chunks[0])) + (Ended(ChunksLines(chunks[1..])) + rest)
  {
    var head, tail := ChunkLines(chunks[0]), ChunksLines(chunks[1..]);
    assert ChunksLines(chunks) == head + tail;
    ConcatText(head, tail, rest);
  }

  lemma PatchParses(done: seq<Patch>, before: Option<(nat, nat)>, patch: Patch, rest: seq<string>)
    requires ChunkExists(Parser(done, before)) && PatchOk(patch)
    ensures ParseFrom(Parser(done, before), Ended(PatchLines(patch)) + rest)
         == ParseFrom(At(done, patch, before), rest)
  {
    var tail := Ended(ChunksLines(patch.chunks)) + rest;
    NamesParse(done, before, patch.src, patch.dst, tail);
    PatchText(patch, rest);
    ChunksParse(done, Patch(patch.src, patch.dst, []), before, patch.chunks, rest);
    assert [] + patch.chunks == patch.chunks;
  }

  lemma NamesParse(done: seq<Patch>, before: Option<(nat, nat)>, src: string, dst: string, tail: seq<string>)
    requires ChunkExists(Parser(done, before)) && OneLine(src) && OneLine(dst)
    ensures ParseFrom(Parser(done, before), ["--- " + src + "\n"] + (["+++ " + dst + "\n"] + tail))
         == ParseFrom(At(done, Patch(src, dst, []), before), tail)
  {
    var s0: Reader := Parser(done, before);
    var s1: Reader := At(done, Patch(src, "", []), before);
    StepSrcName(s0, src);
    ParseStep(s0, "--- " + src + "\n", ["+++ " + dst + "\n"] + tail);
    StepDstName(s1, dst);
    assert (done + [Patch(src, "", [])])[|done| := Patch(src, dst, [])] == done + [Patch(src, dst, [])];
    ParseStep(s1, "+++ " + dst + "\n", tail);
  }

  lemma PatchText(patch: Patch, rest: seq<string>)
    ensures Ended(PatchLines(patch)) + rest ==
      ["--- " + patch.src + "\n"] + (["+++ " + patch.dst + "\n"] + (Ended(ChunksLines(patch.chunks)) + rest))
  {
    var chunks := ChunksLines(patch.chunks);
    ConsText("--- " + patch.src, ["+++ " + patch.dst] + chunks, rest);
    ConsText("+++ " + patch.dst, chunks, rest);
    assert PatchLines(patch) == ["--- " + patch.src] + (["+++ " + patch.dst] + chunks);
  }

  lemma {:induction false} PatchesParse(done: seq<Patch>, before: Option<(nat, nat)>, patches: seq<Patch>)
    requires ChunkExists(Parser(done, before)) && Printable(patches)
    ensures ReadsAs(ParseFrom(Parser(done, before), Ended(PatchesLines(patches))), done + patches)
    decreases |patches|
  {
    if patches == [] {
      Nothing(done);
    } else {
      var patch, more := patches[0], patches[1..];
      EndedConcat(PatchLines(patch), PatchesLines(more));
      PatchParses(done, before, patch, Ended(PatchesLines(more)));
      PatchesParse(At(done, patch, before).patchset, At(done, patch, before).chunk, more);
      HeadAndTail(done, patches);
    }
  }

  predicate ReadsAs(r: Result<Reader, Error>, patches: seq<Patch>) {
    r.Ok? && r.value.patchset == patches
  }

  // ---------- written lines contain no newline ----------

  ghost predicate AllOneLine(lines: seq<string>) {
    forall i :: 0 <= i < |lines| ==> OneLine(lines[i])
  }

  lemma {:induction false} BodyIsOneLine(lines: seq<Line>)
    requires forall i :: 0 <= i < |lines| ==> LineOk(lines[i])
    ensures AllOneLine(BodyLines(lines))
  {
    if lines != [] {
      BodyIsOneLine(lines[1..]);
    }
  }

  lemma {:induction false} ChunksAreOneLine(chunks: seq<Chunk>)
    requires forall i :: 0 <= i < |chunks| ==> ChunkOk(chunks[i])
    ensures AllOneLine(ChunksLines(chunks))
  {
    if chunks != [] {
      ChunksAreOneLine(chunks[1..]);
      BodyIsOneLine(chunks[0].lines);
    }
  }

  lemma {:induction false} PatchesAreOneLine(patches: seq<Patch>)
    requires Printable(patches)
    ensures AllOneLine(PatchesLines(patches))
  {
    if patches != [] {
      PatchesAreOneLine(patches[1..]);
      ChunksAreOneLine(patches[0].chunks);
    }
  }

  /** Printable patches are read back from their text. */
  lemma ReadBack(patches: seq<Patch>)
    requires Printable(patches)
    ensures Parse(SplitLines(Unlines(PatchesLines(patches)))) == Ok(patches)
  {
    PatchesAreOneLine(patches);
    SplitUnlines(PatchesLines(patches));
    PatchesParse([], None, patches);
    assert [] + patches == patches;
  }

  // ---------- everything parsed is printable ----------

  lemma SrcTextOk(line: string)
    requires After("-", line).Some? && After("--- ", line) == None
    ensures LineOk(Line(Src, After("-", line).value))
  {
    var text := After("-", line).value;
    if "-- " <= text {
      NotAfterLonger(line, "-", "-- ");
    }
  }

  lemma DstTextOk(line: string)
    requires After("+", line).Some? && After("+++ ", line) == None
    ensures LineOk(Line(Dst, After("+", line).value))
  {
    var text := After("+", line).value;
    if "++ " <= text {
      NotAfterLonger(line, "+", "++ ");
    }
  }

  lemma RestOfLineSuffix(more: string, rest: string)
    requires RestOfLine(rest).Some? && more <= RestOfLine(rest).value
    ensures more <= rest && RestOfLine(rest[|more|..]).Some?
  {
    var text := RestOfLine(rest).value;
    var tail := text[|more|..];
    assert text == more + tail;
    if rest != text {
      Regroup3(more, tail, "\n");
      assert rest == more + (tail + "\n");
    }
    assert rest[|more|..] == tail || rest[|more|..] == tail + "\n";
  }

  /** If the shorter pattern matches and its text goes on with `more`, the longer pattern matches too. */
  lemma NotAfterLonger(line: string, mark: string, more: string)
    requires After(mark, line).Some? && more <= After(mark, line).value
    ensures After(mark + more, line).Some?
  {
    var rest := line[|mark|..];
    RestOfLineSuffix(more, rest);
    assert line == mark + rest && rest == more + rest[|more|..];
    assert line == (mark + more) + rest[|more|..];
    assert line[|mark + more|..] == rest[|more|..];
  }

  lemma StepKeepsPrintable(s: Reader, line: string)
    requires Printable(s.patchset) && Step(s, line).Ok?
    ensures Printable(Step(s, line).value.patchset)
  {
    if IsHead(line) {
      HeadKeeps(s, line);
    } else if After("-", line).Some? {
      SrcTextOk(line);
      AddLineKeeps(s, Line(Src, After("-", line).value));
    } else if After("+", line).Some? {
      DstTextOk(line);
      AddLineKeeps(s, Line(Dst, After("+", line).value));
    } else {
      AddLineKeeps(s, Line(Both, After(" ", line).value));
    }
  }

  lemma HeadKeeps(s: Reader, line: string)
    requires Printable(s.patchset) && Step(s, line).Ok?
    requires IsHead(line)
    ensures Printable(Step(s, line).value.patchset)
  {
    if After("--- ", line).Some? {
    } else if After("+++ ", line).Some? {
    } else {
      AddChunkKeeps(s, Chunk(ReadHeader(line).value.src_pos, ReadHeader(line).value.dst_pos, []));
    }
  }

  lemma UpdateKeeps(patches: seq<Patch>, n: nat, patch: Patch)
    requires Printable(patches) && PatchOk(patch) && n < |patches|
    ensures Printable(patches[n := patch])
  {
  }

  lemma AddChunkKeeps(s: Reader, chunk: Chunk)
    requires Printable(s.patchset) && ChunkOk(chunk) && AddChunk(s, chunk).Ok?
    ensures Printable(AddChunk(s, chunk).value.patchset)
  {
    var n := |s.patchset| - 1;
    var patch := s.patchset[n];
    assert PatchOk(patch);
    UpdateKeeps(s.patchset, n, patch.(chunks := patch.chunks + [chunk]));
  }

  lemma AddLineKeeps(s: Reader, line: Line)
    requires Printable(s.patchset) && LineOk(line) && AddLine(s, line).Ok?
    ensures Printable(AddLine(s, line).value.patchset)
  {
    var (i, j) := s.chunk.value;
    var patch := s.patchset[i];
    var chunk := patch.chunks[j];
    assert PatchOk(patch) && ChunkOk(chunk);
    UpdateKeeps(s.patchset, i, patch.(chunks := patch.chunks[j := chunk.(lines := chunk.lines + [line])]));
  }

  lemma {:induction false} ParsedIsPrintable(s: Reader, lines: seq<string>)
    requires Printable(s.patchset) && ParseFrom(s, lines).Ok?
    ensures Printable(ParseFrom(s, lines).value.patchset)
    decreases |lines|
  {
    if lines != [] {
      StepKeepsPrintable(s, lines[0]);
      ParsedIsPrintable(Step(s, lines[0]).value, lines[1..]);
    }
  }

  /** Writing and reading back gives the same patches exactly when they are printable. */
  lemma RoundTripIffPrintable(patches: seq<Patch>)
    ensures Parse(SplitLines(Write(patches))) == Ok(patches) <==> Printable(patches)
  {
    if Printable(patches) {
      ReadBack(patches);
    }
    if Parse(SplitLines(Write(patches))) == Ok(patches) {
      ParsedIsPrintable(Parser([], None), SplitLines(Write(patches)));
    }
  }

  /** Whatever was read, writing it and reading it again changes nothing. */
  lemma RewriteIsStable(lines: seq<string>)
    requires Parse(lines).Ok?
    ensures Parse(SplitLines(Write(Parse(lines).value))) == Parse(lines)
  {
    ParsedIsPrintable(Parser([], None), lines);
    RoundTripIffPrintable(Parse(lines).value);
  }

  // ---------- the counts ----------

  /** The positions of the lines of these kinds. */
  function Of(kinds: set<Kind>, lines: seq<Line>): set<int> {
    set i | 0 <= i < |lines| && lines[i].kind in kinds
  }

  lemma OfLast(kinds: set<Kind>, lines: seq<Line>)
    requires lines != []
    ensures |Of(kinds, lines)| ==
      |Of(kinds, lines[..|lines| - 1])| + if lines[|lines| - 1].kind in kinds then 1 else 0
  {
    var n := |lines| - 1;
    assert Of(kinds, lines) == Of(kinds, lines[..n]) + if lines[n].kind in kinds then {n} else {};
  }

  /** The source side of a chunk are its lines that are not added, the destination side those that are not removed. */
  lemma {:induction false} SidesAreNumbers(lines: seq<Line>)
    ensures |SrcLines(lines)| == |Of({Src, Both}, lines)| && |DstLines(lines)| == |Of({Dst, Both}, lines)|
  {
    if lines != [] {
      SidesAreNumbers(lines[..|lines| - 1]);
      OfLast({Src, Both}, lines);
      OfLast({Dst, Both}, lines);
    }
  }

  /** The positions of the lines of a text that begin with one of two marks. */
  function Marked(lines: seq<string>, a: char, b: char): set<int> {
    set i | 0 <= i < |lines| && lines[i] != "" && (lines[i][0] == a || lines[i][0] == b)
  }

  lemma {:induction false} BodyLineAt(lines: seq<Line>, i: nat)
    requires i < |lines|
    ensures |BodyLines(lines)| == |lines| && BodyLines(lines)[i] == Mark(lines[i].kind) + lines[i].text
  {
    if i > 0 {
      BodyLineAt(lines[1..], i - 1);
    } else {
      BodyLength(lines);
    }
  }

  lemma {:induction false} BodyLength(lines: seq<Line>)
    ensures |BodyLines(lines)| == |lines|
  {
    if lines != [] {
      BodyLength(lines[1..]);
    }
  }

  lemma MarkAt(lines: seq<Line>, i: nat)
    requires i < |lines|
    ensures i < |Ended(BodyLines(lines))| == |lines|
    ensures var line := Ended(BodyLines(lines))[i]; line != "" && line[0] == Mark(lines[i].kind)[0]
  {
    BodyLineAt(lines, i);
  }

  /** In the text of a body the marks are those of the kinds. */
  lemma MarksTell(lines: seq<Line>)
    ensures Marked(Ended(BodyLines(lines)), '-', ' ') == Of({Src, Both}, lines)
    ensures Marked(Ended(BodyLines(lines)), '+', ' ') == Of({Dst, Both}, lines)
  {
    var text := Ended(BodyLines(lines));
    BodyLength(lines);
    forall i | 0 <= i < |lines|
      ensures text[i] != "" && text[i][0] == Mark(lines[i].kind)[0]
    {
      MarkAt(lines, i);
    }
    MarksOfKinds(lines, text);
  }

  lemma MarksOfKinds(lines: seq<Line>, text: seq<string>)
    requires |text| == |lines|
    requires forall i :: 0 <= i < |lines| ==> text[i] != "" && text[i][0] == Mark(lines[i].kind)[0]
    ensures Marked(text, '-', ' ') == Of({Src, Both}, lines) && Marked(text, '+', ' ') == Of({Dst, Both}, lines)
  {
  }

  /** The lines of a written chunk: its header and its body. */
  lemma ChunkAsText(chunk: Chunk)
    requires ChunkOk(chunk)
    ensures SplitLines(Unlines(ChunkLines(chunk))) == [ChunkHeader(chunk) + "\n"] + Ended(BodyLines(chunk.lines))
  {
    BodyIsOneLine(chunk.lines);
    SplitUnlines(ChunkLines(chunk));
    assert ChunkLines(chunk)[1..] == BodyLines(chunk.lines);
  }

  /**
   In the text of a written chunk the header carries the positions, and the numbers of
   the lines after it that begin with a minus or a space, and with a plus or a space.
   */
  lemma WrittenCountsAreTrue(chunk: Chunk)
    requires ChunkOk(chunk)
    ensures
      var text := SplitLines(Unlines(ChunkLines(chunk)));
      && text != []
      && ReadHeader(text[0]) ==
           Some(Header(chunk.src_pos, |Marked(text[1..], '-', ' ')|, chunk.dst_pos, |Marked(text[1..], '+', ' ')|))
  {
    ChunkAsText(chunk);
    assert SplitLines(Unlines(ChunkLines(chunk)))[1..] == Ended(BodyLines(chunk.lines));
    SidesAreNumbers(chunk.lines);
    MarksTell(chunk.lines);
    HeaderReads(chunk, |SrcLines(chunk.lines)|, |DstLines(chunk.lines)|);
  }

  /** How many lines come before the next file name or chunk header. */
  function Extent(text: seq<string>): (n: nat)
    ensures n <= |text|
  {
    if text == [] || IsHead(text[0]) then 0 else 1 + Extent(text[1..])
  }

  /** The lengths in the header are those of the lines that follow it. */
  predicate HeaderTrue(header: Header, following: seq<string>) {
    var body := following[..Extent(following)];
    header.src_len == |Marked(body, '-', ' ')| && header.dst_len == |Marked(body, '+', ' ')|
  }

  /** Every chunk header of the text is true. */
  predicate CountsTrue(text: seq<string>) {
    text == [] ||
    (CountsTrue(text[1..]) && (ReadHeader(text[0]).Some? ==> HeaderTrue(ReadHeader(text[0]).value, text[1..])))
  }

  predicate StartsWithHead(text: seq<string>) {
    text == [] || IsHead(text[0])
  }

  lemma {:induction false} BodyCounts(lines: seq<Line>, rest: seq<string>)
    requires forall i :: 0 <= i < |lines| ==> LineOk(lines[i])
    requires CountsTrue(rest) && StartsWithHead(rest)
    ensures CountsTrue(Ended(BodyLines(lines)) + rest)
    ensures Extent(Ended(BodyLines(lines)) + rest) == |lines|
  {
    if lines == [] {
      Nothing(rest);
    } else {
      BodyCounts(lines[1..], rest);
      BodyText(lines, rest);
      StepBodyLine(Parser([], None), lines[0]);
    }
  }

  lemma ChunkCounts(chunk: Chunk, rest: seq<string>)
    requires ChunkOk(chunk) && CountsTrue(rest) && StartsWithHead(rest)
    ensures CountsTrue(Ended(ChunkLines(chunk)) + rest) && StartsWithHead(Ended(ChunkLines(chunk)) + rest)
  {
    var body := Ended(BodyLines(chunk.lines));
    BodyCounts(chunk.lines, rest);
    BodyLength(chunk.lines);
    MarksTell(chunk.lines);
    SidesAreNumbers(chunk.lines);
    HeaderReads(chunk, |SrcLines(chunk.lines)|, |DstLines(chunk.lines)|);
    ConsText(ChunkHeader(chunk), BodyLines(chunk.lines), rest);
    assert (body + rest)[..|body|] == body;
  }

  lemma {:induction false} ChunksCount(chunks: seq<Chunk>, rest: seq<string>)
    requires forall i :: 0 <= i < |chunks| ==> ChunkOk(chunks[i])
    requires CountsTrue(rest) && StartsWithHead(rest)
    ensures CountsTrue(Ended(ChunksLines(chunks)) + rest) && StartsWithHead(Ended(ChunksLines(chunks)) + rest)
  {
    if chunks == [] {
      Nothing(rest);
    } else {
      ChunksCount(chunks[1..], rest);
      ChunksText(chunks, rest);
      ChunkCounts(chunks[0], Ended(ChunksLines(chunks[1..])) + rest);
    }
  }

  lemma NameCounts(mark: string, name: string, rest: seq<string>)
    requires mark == "--- " || mark == "+++ "
    requires OneLine(name) && CountsTrue(rest)
    ensures CountsTrue([mark + name + "\n"] + rest) && StartsWithHead([mark + name + "\n"] + rest)
  {
    AfterItself(mark, name);
    OtherFirst("@@ -", mark + name + "\n");
    assert ([mark + name + "\n"] + rest)[1..] == rest;
  }

  lemma PatchCounts(patch: Patch, rest: seq<string>)
    requires PatchOk(patch) && CountsTrue(rest) && StartsWithHead(rest)
    ensures CountsTrue(Ended(PatchLines(patch)) + rest) && StartsWithHead(Ended(PatchLines(patch)) + rest)
  {
    var chunks := Ended(ChunksLines(patch.chunks)) + rest;
    ChunksCount(patch.chunks, rest);
    NameCounts("+++ ", patch.dst, chunks);
    NameCounts("--- ", patch.src, ["+++ " + patch.dst + "\n"] + chunks);
    PatchText(patch, rest);
  }

  lemma {:induction false} PatchesCount(patches: seq<Patch>)
    requires Printable(patches)
    ensures CountsTrue(Ended(PatchesLines(patches))) && StartsWithHead(Ended(PatchesLines(patches)))
  {
    if patches != [] {
      PatchesCount(patches[1..]);
      PatchCounts(patches[0], Ended(PatchesLines(patches[1..])));
      EndedConcat(PatchLines(patches[0]), PatchesLines(patches[1..]));
    }
  }

  /** In the text written for whole patches every chunk header is true. */
  lemma WrittenTextIsTrue(patches: seq<Patch>)
    requires Printable(patches)
    ensures CountsTrue(SplitLines(Write(patches)))
  {
    PatchesAreOneLine(patches);
    SplitUnlines(PatchesLines(patches));
    PatchesCount(patches);
  }

  /** How a chunk is written: an example. */
  lemma WrittenExample()
    ensures ChunkLines(Chunk(1, 30, [Line(Src, "x"), Line(Dst, "y")])) == ["@@ -1,1 +30,1 @@", "-x", "+y"]
  {
    var a, b := Line(Src, "x"), Line(Dst, "y");
    assert [a, b][..1] == [a] && [a][..0] == [] && [a, b][1..] == [b] && [b][1..] == [];
    assert SrcLines([]) == [] && DstLines([]) == [] && SrcLines([a]) == [a] && DstLines([a]) == [];
    assert SrcLines([a, b]) == [a] + [] && DstLines([a, b]) == [] + [b];
    assert Mark(Src) + "x" == "-x" && Mark(Dst) + "y" == "+y";
    assert BodyLines([]) == [] && BodyLines([b]) == ["+y"] && BodyLines([a, b]) == ["-x"] + ["+y"];
    assert Digits(1) == "1" && Digits(30) == "30" by { assert Digits(3) == "3" && Digits(0) == "0"; }
    assert ChunkHeader(Chunk(1, 30, [a, b])) == "@@ -1,1 +30,1 @@";
  }

  // ---------- the loops ----------

  /** The loop over the lines; `current_chunk` stays on an earlier patch's chunk until the next chunk header. */
  method ParsePatchset(generator: seq<string>) returns (r: Result<seq<Patch>, Error>)
    ensures r == Parse(generator)
  {
    var patchset: seq<Patch> := [];
    var current_chunk: Option<(nat, nat)> := None;
    for k := 0 to |generator|
      invariant ChunkExists(Parser(patchset, current_chunk))
      invariant ParseFrom(Parser(patchset, current_chunk), generator[k..]) == ParseFrom(Parser([], None), generator)
    {
      var line := generator[k];
      ghost var s: Reader := Parser(patchset, current_chunk);
      assert generator[k..][0] == line && generator[k..][1..] == generator[k + 1..];
      var failed;
      patchset, current_chunk, failed := ParseLine(patchset, current_chunk, line);
      if failed.Some? {
        return Err(failed.value);
      }
    }
    return Ok(patchset);
  }

  /** The loop body. */
  method ParseLine(patches: seq<Patch>, chunk: Option<(nat, nat)>, line: string)
    returns (patchset: seq<Patch>, current_chunk: Option<(nat, nat)>, failed: Option<Error>)
    requires ChunkExists(Parser(patches, chunk))
    ensures Matches(Step(Parser(patches, chunk), line), patchset, current_chunk, failed)
  {
    var matched: bool;
    matched, patchset, current_chunk, failed := ParseHead(patches, chunk, line);
    if !matched {
      patchset, failed := ParseBody(patches, chunk, line);
      current_chunk := chunk;
    }
  }

  /** The loop's variables after a line are those of the parser state, or the exception is its error. */
  ghost predicate Matches(r: Result<Reader, Error>, patchset: seq<Patch>, chunk: Option<(nat, nat)>,
                          failed: Option<Error>)
  {
    if failed.Some? then r == Err(failed.value)
    else r.Ok? && r.value.patchset == patchset && r.value.chunk == chunk
  }

  method ParseHead(patches: seq<Patch>, chunk: Option<(nat, nat)>, line: string)
    returns (matched: bool, patchset: seq<Patch>, current_chunk: Option<(nat, nat)>, failed: Option<Error>)
    requires ChunkExists(Parser(patches, chunk))
    ensures matched <==> IsHead(line)
    ensures matched ==> Matches(StepHead(Parser(patches, chunk), line), patchset, current_chunk, failed)
  {
    matched, patchset, current_chunk, failed := true, patches, chunk, None;
    var m := After("--- ", line);
    if m.Some? {
      patchset := patchset + [Patch(m.value, "", [])];
      return;
    }
    m := After("+++ ", line);
    if m.Some? {
      patchset, failed := NameDst(patchset, chunk, m.value);
      return;
    }
    var header := ReadHeader(line);
    if header.Some? {
      patchset, current_chunk, failed :=
        AppendChunk(patchset, chunk, Chunk(header.value.src_pos, header.value.dst_pos, []));
      return;
    }
    matched := false;
  }

  /** `current_patch.set_dst`. */
  method NameDst(patches: seq<Patch>, chunk: Option<(nat, nat)>, name: string)
    returns (patchset: seq<Patch>, failed: Option<Error>)
    requires ChunkExists(Parser(patches, chunk))
    ensures Matches(SetDst(Parser(patches, chunk), name), patchset, chunk, failed)
  {
    patchset, failed := patches, None;
    if patchset == [] {
      failed := Some(AttributeError);
    } else {
      var n := |patchset| - 1;
      patchset := patchset[n := patchset[n].(dst := name)];
    }
  }

  /** `current_patch.add_chunk`. */
  method AppendChunk(patches: seq<Patch>, chunk: Option<(nat, nat)>, added: Chunk)
    returns (patchset: seq<Patch>, current_chunk: Option<(nat, nat)>, failed: Option<Error>)
    requires ChunkExists(Parser(patches, chunk))
    ensures Matches(AddChunk(Parser(patches, chunk), added), patchset, current_chunk, failed)
  {
    patchset, current_chunk, failed := patches, chunk, None;
    if patchset == [] {
      failed := Some(AttributeError);
    } else {
      var n := |patchset| - 1;
      current_chunk := Some((n, |patchset[n].chunks|));
      patchset := patchset[n := patchset[n].(chunks := patchset[n].chunks + [added])];
    }
  }

  method ParseBody(patches: seq<Patch>, chunk: Option<(nat, nat)>, line: string)
    returns (patchset: seq<Patch>, failed: Option<Error>)
    requires ChunkExists(Parser(patches, chunk))
    ensures Matches(StepBody(Parser(patches, chunk), line), patchset, chunk, failed)
  {
    var m := After("-", line);
    if m.Some? {
      patchset, failed := AppendLine(patches, chunk, Line(Src, m.value));
      return;
    }
    m := After("+", line);
    if m.Some? {
      patchset, failed := AppendLine(patches, chunk, Line(Dst, m.value));
      return;
    }
    m := After(" ", line);
    if m.Some? {
      patchset, failed := AppendLine(patches, chunk, Line(Both, m.value));
      return;
    }
    patchset, failed := patches, Some(NoMatch);
  }

  /** `current_chunk.add_line`. */
  method AppendLine(patches: seq<Patch>, chunk: Option<(nat, nat)>, line: Line)
    returns (patchset: seq<Patch>, failed: Option<Error>)
    requires ChunkExists(Parser(patches, chunk))
    ensures Matches(AddLine(Parser(patches, chunk), line), patchset, chunk, failed)
  {
    patchset, failed := patches, None;
    if chunk == None {
      failed := Some(UnboundLocalError);
    } else {
      var (i, j) := chunk.value;
      var lines := patchset[i].chunks[j].lines + [line];
      var chunks := patchset[i].chunks[j := patchset[i].chunks[j].(lines := lines)];
      patchset := patchset[i := patchset[i].(chunks := chunks)];
    }
  }

  /** `PatchChunk.src_len` and `dst_len`, by way of the lists they measure. */
  method CountLines(lines: seq<Line>) returns (src_len: nat, dst_len: nat)
    ensures src_len == |SrcLines(lines)| && dst_len == |DstLines(lines)|
    ensures src_len == |Of({Src, Both}, lines)| && dst_len == |Of({Dst, Both}, lines)|
  {
    var src: seq<Line>, dst: seq<Line> := [], [];
    for k := 0 to |lines|
      invariant src == SrcLines(lines[..k]) && dst == DstLines(lines[..k])
    {
      assert lines[..k + 1][..k] == lines[..k];
      if IsSrc(lines[k]) {
        src := src + [lines[k]];
      }
      if IsDst(lines[k]) {
        dst := dst + [lines[k]];
      }
    }
    assert lines[..|lines|] == lines;
    SidesAreNumbers(lines);
    return |src|, |dst|;
  }

  lemma {:induction false} UnlinesConcat(a: seq<string>, b: seq<string>)
    ensures Unlines(a + b) == Unlines(a) + Unlines(b)
  {
    if a == [] {
      assert a + b == b;
    } else {
      UnlinesConcat(a[1..], b);
      assert (a + b)[1..] == a[1..] + b;
      Regroup3(a[0] + "\n", Unlines(a[1..]), Unlines(b));
    }
  }

  lemma UnlinesCons(line: string, lines: seq<string>)
    ensures Unlines([line] + lines) == line + "\n" + Unlines(lines)
  {
    assert ([line] + lines)[1..] == lines;
  }

  /** `PatchChunk.write`. */
  method WriteChunk(chunk: Chunk) returns (f: string)
    ensures f == Unlines(ChunkLines(chunk))
  {
    var src_len, dst_len := CountLines(chunk.lines);
    f := HeaderLine(chunk, src_len, dst_len) + "\n";
    UnlinesCons(HeaderLine(chunk, src_len, dst_len), BodyLines(chunk.lines));
    ghost var whole := Unlines(ChunkLines(chunk));
    assert chunk.lines[0..] == chunk.lines;
    for k := 0 to |chunk.lines|
      invariant f + Unlines(BodyLines(chunk.lines[k..])) == whole
    {
      var line := Mark(chunk.lines[k].kind) + chunk.lines[k].text + "\n";
      Regroup3(f, line, Unlines(BodyLines(chunk.lines[k + 1..])));
      f := f + line;
    }
    assert chunk.lines[|chunk.lines|..] == [];
    assert f + "" == f;
  }

  lemma NextChunk(chunks: seq<Chunk>, k: nat)
    requires k < |chunks|
    ensures Unlines(ChunksLines(chunks[k..])) ==
      Unlines(ChunkLines(chunks[k])) + Unlines(ChunksLines(chunks[k + 1..]))
  {
    assert chunks[k..][0] == chunks[k] && chunks[k..][1..] == chunks[k + 1..];
    UnlinesConcat(ChunkLines(chunks[k]), ChunksLines(chunks[k + 1..]));
  }

  lemma NamesText(patch: Patch)
    ensures Unlines(PatchLines(patch)) ==
      "--- " + patch.src + "\n" + ("+++ " + patch.dst + "\n" + Unlines(ChunksLines(patch.chunks)))
  {
    var chunks := ChunksLines(patch.chunks);
    UnlinesCons("--- " + patch.src, ["+++ " + patch.dst] + chunks);
    UnlinesCons("+++ " + patch.dst, chunks);
    assert PatchLines(patch) == ["--- " + patch.src] + (["+++ " + patch.dst] + chunks);
  }

  /** `Patch.write`. */
  method WritePatch(patch: Patch) returns (f: string)
    ensures f == Unlines(PatchLines(patch))
  {
    var src, dst := "--- " + patch.src + "\n", "+++ " + patch.dst + "\n";
    f := src + dst;
    NamesText(patch);
    Regroup3(src, dst, Unlines(ChunksLines(patch.chunks)));
    ghost var whole := Unlines(PatchLines(patch));
    assert patch.chunks[0..] == patch.chunks;
    for k := 0 to |patch.chunks|
      invariant f + Unlines(ChunksLines(patch.chunks[k..])) == whole
    {
      var text := WriteChunk(patch.chunks[k]);
      NextChunk(patch.chunks, k);
      Regroup3(f, text, Unlines(ChunksLines(patch.chunks[k + 1..])));
      f := f + text;
    }
    assert patch.chunks[|patch.chunks|..] == [];
    assert f + "" == f;
  }
}
