/** utils/check-style.py: rewriting a text. */
module PatchRewrite {
  import opened Wrappers
  import opened Sequences
  import opened PatchSet
  import opened PatchRoundTrip

  // ---------- the layout that `write` uses ----------

  datatype Place = Start | AfterSrc | AfterDst | InChunk

  predicate Complete(line: string) {
    line != "" && line[|line| - 1] == '\n'
  }

  /**
   File names come in pairs, chunks after a pair, and lines after a chunk header.
   A header may carry any counts, and anything after its closing mark.
   */
  function NextPlace(place: Place, line: string): Option<Place> {
    if After("--- ", line).Some? then if place != AfterSrc && Complete(line) then Some(AfterSrc) else None
    else if After("+++ ", line).Some? then if place == AfterSrc && Complete(line) then Some(AfterDst) else None
    else if ReadHeader(line).Some? then if place == AfterDst || place == InChunk then Some(InChunk) else None
    else if place == InChunk && IsBody(line) && Complete(line) then Some(InChunk)
    else None
  }

  function PlaceAfter(place: Place, lines: seq<string>): Option<Place>
    decreases |lines|
  {
    if lines == [] then Some(place)
    else
      match NextPlace(place, lines[0])
      case None => None
      case Some(next) => PlaceAfter(next, lines[1..])
  }

  predicate Layout(lines: seq<string>) {
    var last := PlaceAfter(Start, lines);
    last.Some? && last.value != AfterSrc
  }

  lemma {:induction false} PlaceConcat(place: Place, a: seq<string>, b: seq<string>)
    ensures PlaceAfter(place, a + b) ==
      match PlaceAfter(place, a) case None => None case Some(next) => PlaceAfter(next, b)
    decreases |a|
  {
    if a == [] {
      assert a + b == b;
    } else {
      assert (a + b)[1..] == a[1..] + b;
      if NextPlace(place, a[0]).Some? {
        PlaceConcat(NextPlace(place, a[0]).value, a[1..], b);
      }
    }
  }

  // ---------- lines that differ in a header only ----------

  /** Two chunk headers with the same positions. */
  predicate SameHeader(l: string, m: string) {
    && ReadHeader(l).Some? && ReadHeader(m).Some?
    && ReadHeader(l).value.src_pos == ReadHeader(m).value.src_pos
    && ReadHeader(l).value.dst_pos == ReadHeader(m).value.dst_pos
  }

  predicate SameLine(l: string, m: string) {
    l == m || SameHeader(l, m)
  }

  ghost predicate SameLines(a: seq<string>, b: seq<string>) {
    |a| == |b| && forall i :: 0 <= i < |a| ==> SameLine(a[i], b[i])
  }

  lemma HeaderIsNoName(line: string)
    requires ReadHeader(line).Some?
    ensures After("--- ", line) == None && After("+++ ", line) == None
  {
    assert ReadField("@@ -", line).Some?;
    assert line[0] == "@@ -"[0];
    OtherFirst("--- ", line);
    OtherFirst("+++ ", line);
  }

  /** The reader cannot tell such lines apart. */
  lemma SameStep(s: Reader, place: Place, l: string, m: string)
    requires SameLine(l, m)
    ensures Step(s, l) == Step(s, m) && NextPlace(place, l) == NextPlace(place, m)
  {
    if l != m {
      HeaderIsNoName(l);
      HeaderIsNoName(m);
    }
  }

  lemma {:induction false} SameParses(s: Reader, place: Place, a: seq<string>, b: seq<string>)
    requires SameLines(a, b)
    ensures ParseFrom(s, a) == ParseFrom(s, b) && PlaceAfter(place, a) == PlaceAfter(place, b)
    decreases |a|
  {
    if a != [] {
      SameStep(s, place, a[0], b[0]);
      if Step(s, a[0]).Ok? {
        SameParses(Step(s, a[0]).value, place, a[1..], b[1..]);
      }
      if NextPlace(place, a[0]).Some? {
        SameParses(s, NextPlace(place, a[0]).value, a[1..], b[1..]);
      }
    }
  }

  lemma SameConcat(a: seq<string>, b: seq<string>, c: seq<string>, d: seq<string>)
    requires SameLines(a, b) && SameLines(c, d)
    ensures SameLines(a + c, b + d)
  {
  }

  lemma SameTrans(a: seq<string>, b: seq<string>, c: seq<string>)
    requires SameLines(a, b) && SameLines(b, c)
    ensures SameLines(a, c)
  {
    forall i | 0 <= i < |a|
      ensures SameLine(a[i], c[i])
    {
      assert SameLine(a[i], b[i]) && SameLine(b[i], c[i]);
    }
  }

  /** Any text with the lines of printable patches, whatever its chunk headers look like, reads as those patches. */
  lemma ReadBackAnyHeaders(patches: seq<Patch>, lines: seq<string>)
    requires Printable(patches) && SameLines(lines, Ended(PatchesLines(patches)))
    ensures Parse(lines) == Ok(patches)
  {
    ReadBack(patches);
    PatchesAreOneLine(patches);
    SplitUnlines(PatchesLines(patches));
    SameParses(Parser([], None), Start, lines, Ended(PatchesLines(patches)));
  }

  // ---------- what is written has the layout ----------

  lemma {:induction false} BodyPlace(lines: seq<Line>)
    requires forall i :: 0 <= i < |lines| ==> LineOk(lines[i])
    ensures PlaceAfter(InChunk, Ended(BodyLines(lines))) == Some(InChunk)
  {
    if lines != [] {
      StepBodyLine(Parser([], None), lines[0]);
      BodyPlace(lines[1..]);
      assert Ended(BodyLines(lines))[1..] == Ended(BodyLines(lines[1..]));
    }
  }

  lemma HeaderPlace(place: Place, chunk: Chunk)
    requires (place == AfterDst || place == InChunk) && ChunkOk(chunk)
    ensures NextPlace(place, ChunkHeader(chunk) + "\n") == Some(InChunk)
  {
    HeaderReads(chunk, |SrcLines(chunk.lines)|, |DstLines(chunk.lines)|);
    HeaderIsNoName(ChunkHeader(chunk) + "\n");
  }

  lemma {:induction false} ChunksPlace(place: Place, chunks: seq<Chunk>)
    requires (place == AfterDst || place == InChunk) && forall i :: 0 <= i < |chunks| ==> ChunkOk(chunks[i])
    ensures PlaceAfter(place, Ended(ChunksLines(chunks))) == Some(if chunks == [] then place else InChunk)
    decreases |chunks|
  {
    if chunks != [] {
      var head := Ended(ChunkLines(chunks[0]));
      HeaderPlace(place, chunks[0]);
      BodyPlace(chunks[0].lines);
      assert head[1..] == Ended(BodyLines(chunks[0].lines));
      ChunksPlace(InChunk, chunks[1..]);
      EndedConcat(ChunkLines(chunks[0]), ChunksLines(chunks[1..]));
      PlaceConcat(place, head, Ended(ChunksLines(chunks[1..])));
    }
  }

  lemma NamePlaces(place: Place, src: string, dst: string)
    requires place != AfterSrc && OneLine(src) && OneLine(dst)
    ensures NextPlace(place, "--- " + src + "\n") == Some(AfterSrc)
    ensures NextPlace(AfterSrc, "+++ " + dst + "\n") == Some(AfterDst)
  {
    AfterItself("--- ", src);
    AfterItself("+++ ", dst);
    assert ("+++ " + dst + "\n")[0] == '+';
    OtherFirst("--- ", "+++ " + dst + "\n");
  }

  lemma PatchPlace(place: Place, patch: Patch)
    requires place != AfterSrc && PatchOk(patch)
    ensures PlaceAfter(place, Ended(PatchLines(patch))) == Some(if patch.chunks == [] then AfterDst else InChunk)
  {
    var chunks := Ended(ChunksLines(patch.chunks));
    var src, dst := "--- " + patch.src + "\n", "+++ " + patch.dst + "\n";
    NamePlaces(place, patch.src, patch.dst);
    ChunksPlace(AfterDst, patch.chunks);
    PatchText(patch, []);
    Nothing(Ended(PatchLines(patch)));
    Nothing(chunks);
    var text := [src] + ([dst] + chunks);
    assert Ended(PatchLines(patch)) == text;
    assert text[1..] == [dst] + chunks && ([dst] + chunks)[1..] == chunks;
  }

  lemma {:induction false} PatchesPlace(place: Place, patches: seq<Patch>)
    requires place != AfterSrc && Printable(patches)
    ensures var last := PlaceAfter(place, Ended(PatchesLines(patches))); last.Some? && last.value != AfterSrc
    decreases |patches|
  {
    if patches != [] {
      PatchPlace(place, patches[0]);
      PatchesPlace(if patches[0].chunks == [] then AfterDst else InChunk, patches[1..]);
      EndedConcat(PatchLines(patches[0]), PatchesLines(patches[1..]));
      PlaceConcat(place, Ended(PatchLines(patches[0])), Ended(PatchesLines(patches[1..])));
    }
  }

  // ---------- a text in the layout is rewritten line by line ----------

  /** What writing the patches read so far gives. */
  function Text(done: seq<Patch>, patch: Patch): seq<string> {
    Ended(PatchesLines(done)) + Ended(PatchLines(patch))
  }

  lemma {:induction false} PatchesSnoc(done: seq<Patch>, patch: Patch)
    ensures Ended(PatchesLines(done + [patch])) == Text(done, patch)
    decreases |done|
  {
    if done == [] {
      assert [] + [patch] == [patch] && [patch][1..] == [];
      Nothing(PatchLines(patch));
      Nothing(Ended(PatchLines(patch)));
    } else {
      assert (done + [patch])[1..] == done[1..] + [patch];
      PatchesSnoc(done[1..], patch);
      EndedConcat(PatchLines(done[0]), PatchesLines(done[1..]));
      EndedConcat(PatchLines(done[0]), PatchesLines(done[1..] + [patch]));
      Regroup3(Ended(PatchLines(done[0])), Ended(PatchesLines(done[1..])), Ended(PatchLines(patch)));
    }
  }

  lemma {:induction false} ChunksSnoc(chunks: seq<Chunk>, chunk: Chunk)
    ensures ChunksLines(chunks + [chunk]) == ChunksLines(chunks) + ChunkLines(chunk)
    decreases |chunks|
  {
    if chunks == [] {
      assert [] + [chunk] == [chunk] && [chunk][1..] == [];
      Nothing(ChunkLines(chunk));
    } else {
      assert (chunks + [chunk])[1..] == chunks[1..] + [chunk];
      ChunksSnoc(chunks[1..], chunk);
      Regroup3(ChunkLines(chunks[0]), ChunksLines(chunks[1..]), ChunkLines(chunk));
    }
  }

  lemma {:induction false} BodySnoc(lines: seq<Line>, line: Line)
    ensures BodyLines(lines + [line]) == BodyLines(lines) + [Mark(line.kind) + line.text]
    decreases |lines|
  {
    if lines == [] {
      assert [] + [line] == [line] && [line][1..] == [];
    } else {
      assert (lines + [line])[1..] == lines[1..] + [line];
      BodySnoc(lines[1..], line);
    }
  }

  /** The text up to the last chunk, which follows. */
  function TextBefore(done: seq<Patch>, patch: Patch, front: seq<Chunk>): seq<string> {
    Text(done, patch.(chunks := front))
  }

  lemma TextSplits(done: seq<Patch>, patch: Patch, front: seq<Chunk>, chunk: Chunk)
    requires patch.chunks == front + [chunk]
    ensures Text(done, patch) == TextBefore(done, patch, front) + Ended(ChunkLines(chunk))
  {
    var names := ["--- " + patch.src, "+++ " + patch.dst];
    ChunksSnoc(front, chunk);
    Regroup3(names, ChunksLines(front), ChunkLines(chunk));
    EndedConcat(names + ChunksLines(front), ChunkLines(chunk));
    Regroup3(Ended(PatchesLines(done)), Ended(names + ChunksLines(front)), Ended(ChunkLines(chunk)));
  }

  lemma ChunkText(chunk: Chunk)
    ensures Ended(ChunkLines(chunk)) == [ChunkHeader(chunk) + "\n"] + Ended(BodyLines(chunk.lines))
  {
    assert ChunkLines(chunk)[1..] == BodyLines(chunk.lines);
  }

  /** One more line in a chunk: its header may change in the counts, and the line comes last. */
  lemma ChunkGrows(chunk: Chunk, line: Line)
    requires ChunkOk(chunk)
    ensures SameLines(Ended(ChunkLines(chunk)) + [Mark(line.kind) + line.text + "\n"],
                      Ended(ChunkLines(chunk.(lines := chunk.lines + [line]))))
  {
    var longer := chunk.(lines := chunk.lines + [line]);
    var last := Mark(line.kind) + line.text;
    ChunkText(chunk);
    ChunkText(longer);
    BodySnoc(chunk.lines, line);
    EndedConcat(BodyLines(chunk.lines), [last]);
    assert Ended([last]) == [last + "\n"];
    HeaderReads(chunk, |SrcLines(chunk.lines)|, |DstLines(chunk.lines)|);
    HeaderReads(longer, |SrcLines(longer.lines)|, |DstLines(longer.lines)|);
    assert SameHeader(ChunkHeader(chunk) + "\n", ChunkHeader(longer) + "\n");
  }

  /** How the lines read so far compare with what writing the patches read so far gives. */
  ghost predicate Matching(place: Place, done: seq<Patch>, patch: Patch, read: seq<string>) {
    match place
    case Start => false
    case AfterSrc =>
      patch == Patch(patch.src, "", []) && SameLines(read, Ended(PatchesLines(done)) + ["--- " + patch.src + "\n"])
    case AfterDst => patch.chunks == [] && SameLines(read, Text(done, patch))
    case InChunk => patch.chunks != [] && SameLines(read, Text(done, patch))
  }

  lemma MoreThanPrefix(prefix: string, line: string)
    requires prefix <= line && Complete(line)
    ensures |line| > |prefix| || '\n' in prefix
  {
    if |line| == |prefix| {
      assert prefix == line && line[|line| - 1] in line;
    }
  }

  lemma WholeLine(prefix: string, line: string)
    requires After(prefix, line).Some? && Complete(line) && '\n' !in prefix
    ensures line == prefix + After(prefix, line).value + "\n" && OneLine(After(prefix, line).value)
  {
    var rest := line[|prefix|..];
    assert line == prefix + rest;
    MoreThanPrefix(prefix, line);
    assert rest[|rest| - 1] == '\n' && rest == rest[..|rest| - 1] + "\n";
    Regroup3(prefix, rest[..|rest| - 1], "\n");
  }

  ghost predicate Ready(done: seq<Patch>, patch: Patch, before: Option<(nat, nat)>) {
    ChunkExists(Parser(done, before)) && Printable(done) && PatchOk(patch)
  }

  lemma SrcMatches(place: Place, done: seq<Patch>, patch: Patch, before: Option<(nat, nat)>, read: seq<string>,
                   line: string)
    returns (next: Patch, chunk: Option<(nat, nat)>)
    requires Ready(done, patch, before) && Matching(place, done, patch, read)
    requires place != AfterSrc && After("--- ", line).Some? && Complete(line)
    ensures Ready(done + [patch], next, chunk) && Matching(AfterSrc, done + [patch], next, read + [line])
    ensures Step(At(done, patch, before), line) == Ok(At(done + [patch], next, chunk))
  {
    next, chunk := Patch(After("--- ", line).value, "", []), At(done, patch, before).chunk;
    WholeLine("--- ", line);
    PatchesSnoc(done, patch);
    SameConcat(read, Text(done, patch), [line], [line]);
  }

  lemma StepsToDst(done: seq<Patch>, patch: Patch, before: Option<(nat, nat)>, line: string)
    requires ChunkExists(Parser(done, before)) && patch.chunks == []
    requires After("--- ", line) == None && After("+++ ", line).Some?
    ensures Step(At(done, patch, before), line) == Ok(At(done, patch.(dst := After("+++ ", line).value), before))
  {
    var next := patch.(dst := After("+++ ", line).value);
    assert (done + [patch])[|done| := next] == done + [next];
  }

  lemma NamesOnly(patch: Patch)
    requires patch.chunks == []
    ensures Ended(PatchLines(patch)) == ["--- " + patch.src + "\n"] + ["+++ " + patch.dst + "\n"]
  {
    PatchText(patch, []);
    Nothing(Ended(PatchLines(patch)));
  }

  lemma DstMatches(done: seq<Patch>, patch: Patch, before: Option<(nat, nat)>, read: seq<string>, line: string)
    returns (next: Patch)
    requires Ready(done, patch, before) && Matching(AfterSrc, done, patch, read)
    requires After("--- ", line) == None && After("+++ ", line).Some? && Complete(line)
    ensures Ready(done, next, before) && Matching(AfterDst, done, next, read + [line])
    ensures Step(At(done, patch, before), line) == Ok(At(done, next, before))
  {
    next := patch.(dst := After("+++ ", line).value);
    WholeLine("+++ ", line);
    StepsToDst(done, patch, before, line);
    var start, src := Ended(PatchesLines(done)), ["--- " + patch.src + "\n"];
    SameConcat(read, start + src, [line], [line]);
    NamesOnly(next);
    Regroup3(start, src, [line]);
  }

  lemma HeaderIsSame(line: string, chunk: Chunk)
    requires ReadHeader(line).Some?
    requires chunk == Chunk(ReadHeader(line).value.src_pos, ReadHeader(line).value.dst_pos, [])
    ensures SameLines([line], Ended(ChunkLines(chunk)))
  {
    HeaderReads(chunk, |SrcLines([])|, |DstLines([])|);
    ChunkText(chunk);
    assert SameHeader(line, ChunkHeader(chunk) + "\n");
  }

  lemma StepsToHeader(done: seq<Patch>, patch: Patch, before: Option<(nat, nat)>, line: string, chunk: Chunk)
    requires ChunkExists(Parser(done, before)) && ReadHeader(line).Some?
    requires chunk == Chunk(ReadHeader(line).value.src_pos, ReadHeader(line).value.dst_pos, [])
    ensures Step(At(done, patch, before), line) == Ok(At(done, patch.(chunks := patch.chunks + [chunk]), before))
  {
    HeaderIsNoName(line);
    AddChunkAt(done, patch, before, chunk);
  }

  lemma ChunkAdded(patch: Patch, front: seq<Chunk>, chunk: Chunk)
    requires PatchOk(patch) && front <= patch.chunks && ChunkOk(chunk)
    ensures PatchOk(patch.(chunks := front + [chunk]))
  {
  }

  lemma HeaderMatches(place: Place, done: seq<Patch>, patch: Patch, before: Option<(nat, nat)>, read: seq<string>,
                      line: string)
    returns (next: Patch)
    requires Ready(done, patch, before) && Matching(place, done, patch, read)
    requires (place == AfterDst || place == InChunk) && ReadHeader(line).Some?
    ensures Ready(done, next, before) && Matching(InChunk, done, next, read + [line])
    ensures Step(At(done, patch, before), line) == Ok(At(done, next, before))
  {
    var chunk := Chunk(ReadHeader(line).value.src_pos, ReadHeader(line).value.dst_pos, []);
    next := patch.(chunks := patch.chunks + [chunk]);
    StepsToHeader(done, patch, before, line, chunk);
    ChunkAdded(patch, patch.chunks, chunk);
    TextSplits(done, next, patch.chunks, chunk);
    assert TextBefore(done, next, patch.chunks) == Text(done, patch);
    HeaderIsSame(line, chunk);
    SameConcat(read, Text(done, patch), [line], Ended(ChunkLines(chunk)));
  }

  /** A body line as the parser takes it. */
  function BodyOf(line: string): Line
    requires IsBody(line)
  {
    if After("-", line).Some? then Line(Src, After("-", line).value)
    else if After("+", line).Some? then Line(Dst, After("+", line).value)
    else Line(Both, After(" ", line).value)
  }

  lemma BodyIsLine(line: string)
    requires IsBody(line) && !IsHead(line) && Complete(line)
    ensures LineOk(BodyOf(line)) && line == Mark(BodyOf(line).kind) + BodyOf(line).text + "\n"
  {
    if After("-", line).Some? {
      SrcTextOk(line);
      WholeLine("-", line);
    } else if After("+", line).Some? {
      DstTextOk(line);
      WholeLine("+", line);
    } else {
      WholeLine(" ", line);
    }
  }

  lemma TextGrows(done: seq<Patch>, patch: Patch, next: Patch, front: seq<Chunk>, chunk: Chunk, line: Line)
    requires patch.chunks == front + [chunk] && ChunkOk(chunk)
    requires next == patch.(chunks := front + [chunk.(lines := chunk.lines + [line])])
    ensures SameLines(Text(done, patch) + [Mark(line.kind) + line.text + "\n"], Text(done, next))
  {
    var longer := chunk.(lines := chunk.lines + [line]);
    var start, last := TextBefore(done, patch, front), [Mark(line.kind) + line.text + "\n"];
    ChunkGrows(chunk, line);
    TextSplits(done, patch, front, chunk);
    TextSplits(done, next, front, longer);
    assert start == TextBefore(done, next, front);
    Regroup3(start, Ended(ChunkLines(chunk)), last);
    SameConcat(start, start, Ended(ChunkLines(chunk)) + last, Ended(ChunkLines(longer)));
  }

  lemma StepsToBody(done: seq<Patch>, patch: Patch, before: Option<(nat, nat)>, front: seq<Chunk>, chunk: Chunk,
                    line: string)
    requires ChunkExists(Parser(done, before)) && patch.chunks == front + [chunk] && IsBody(line) && !IsHead(line)
    ensures Step(At(done, patch, before), line)
      == Ok(At(done, patch.(chunks := front + [chunk.(lines := chunk.lines + [BodyOf(line)])]), before))
  {
    AddLineAt(done, patch, before, front, chunk, BodyOf(line));
  }

  lemma LineAdded(chunk: Chunk, line: Line)
    requires ChunkOk(chunk) && LineOk(line)
    ensures ChunkOk(chunk.(lines := chunk.lines + [line]))
  {
  }

  lemma LastChunk(patch: Patch) returns (front: seq<Chunk>, chunk: Chunk)
    requires PatchOk(patch) && patch.chunks != []
    ensures patch.chunks == front + [chunk] && front <= patch.chunks && ChunkOk(chunk)
  {
    front, chunk := patch.chunks[..|patch.chunks| - 1], patch.chunks[|patch.chunks| - 1];
  }

  lemma BodyMatches(done: seq<Patch>, patch: Patch, before: Option<(nat, nat)>, read: seq<string>, line: string)
    returns (next: Patch)
    requires Ready(done, patch, before) && Matching(InChunk, done, patch, read)
    requires IsBody(line) && !IsHead(line) && Complete(line)
    ensures Ready(done, next, before) && Matching(InChunk, done, next, read + [line])
    ensures Step(At(done, patch, before), line) == Ok(At(done, next, before))
  {
    var front, chunk := LastChunk(patch);
    var longer := chunk.(lines := chunk.lines + [BodyOf(line)]);
    BodyIsLine(line);
    next := patch.(chunks := front + [longer]);
    LineAdded(chunk, BodyOf(line));
    ChunkAdded(patch, front, longer);
    StepsToBody(done, patch, before, front, chunk, line);
    TextGrows(done, patch, next, front, chunk, BodyOf(line));
    SameConcat(read, Text(done, patch), [line], [line]);
    SameTrans(read + [line], Text(done, patch) + [line], Text(done, next));
  }

  /** One line of a text in the layout. */
  lemma LineMatches(place: Place, done: seq<Patch>, patch: Patch, before: Option<(nat, nat)>, read: seq<string>,
                    line: string)
    returns (done': seq<Patch>, patch': Patch, before': Option<(nat, nat)>)
    requires Ready(done, patch, before) && Matching(place, done, patch, read) && NextPlace(place, line).Some?
    ensures Ready(done', patch', before') && Matching(NextPlace(place, line).value, done', patch', read + [line])
    ensures Step(At(done, patch, before), line) == Ok(At(done', patch', before'))
  {
    done', patch', before' := done, patch, before;
    if After("--- ", line).Some? {
      patch', before' := SrcMatches(place, done, patch, before, read, line);
      done' := done + [patch];
    } else if After("+++ ", line).Some? {
      patch' := DstMatches(done, patch, before, read, line);
    } else if ReadHeader(line).Some? {
      patch' := HeaderMatches(place, done, patch, before, read, line);
    } else {
      patch' := BodyMatches(done, patch, before, read, line);
    }
  }

  lemma HeadBack(s: Reader, read: seq<string>, lines: seq<string>)
    requires lines != [] && Step(s, lines[0]).Ok?
    ensures read + [lines[0]] + lines[1..] == read + lines
    ensures ParseFrom(s, lines) == ParseFrom(Step(s, lines[0]).value, lines[1..])
  {
    ParseStep(s, lines[0], lines[1..]);
    assert [lines[0]] + lines[1..] == lines;
    Regroup3(read, [lines[0]], lines[1..]);
  }

  lemma LayoutEnds(place: Place, done: seq<Patch>, patch: Patch, before: Option<(nat, nat)>, read: seq<string>,
                   lines: seq<string>)
    requires Ready(done, patch, before) && Matching(place, done, patch, read) && place != AfterSrc && lines == []
    ensures
      var r := ParseFrom(At(done, patch, before), lines);
      r.Ok? && SameLines(read + lines, Ended(PatchesLines(r.value.patchset)))
  {
    PatchesSnoc(done, patch);
    Nothing(read);
  }

  /** From a matching state on, a text in the layout is read, and writing the result gives its lines again. */
  lemma {:induction false} LayoutReads(place: Place, done: seq<Patch>, patch: Patch, before: Option<(nat, nat)>,
                                       read: seq<string>, lines: seq<string>)
    requires Ready(done, patch, before) && Matching(place, done, patch, read)
    requires PlaceAfter(place, lines).Some? && PlaceAfter(place, lines).value != AfterSrc
    ensures
      var r := ParseFrom(At(done, patch, before), lines);
      r.Ok? && SameLines(read + lines, Ended(PatchesLines(r.value.patchset)))
    decreases |lines|
  {
    if lines == [] {
      LayoutEnds(place, done, patch, before, read, lines);
    } else {
      var done', patch', before' := LineMatches(place, done, patch, before, read, lines[0]);
      LayoutReads(NextPlace(place, lines[0]).value, done', patch', before', read + [lines[0]], lines[1..]);
      HeadBack(At(done, patch, before), read, lines);
    }
  }

  lemma FirstName(line: string) returns (patch: Patch)
    requires NextPlace(Start, line).Some?
    ensures NextPlace(Start, line) == Some(AfterSrc) && Step(Parser([], None), line) == Ok(At([], patch, None))
    ensures Ready([], patch, None) && Matching(AfterSrc, [], patch, [line])
  {
    patch := Patch(After("--- ", line).value, "", []);
    WholeLine("--- ", line);
    assert [] + [patch] == [patch];
    Nothing([line]);
  }

  lemma LayoutIsRead(lines: seq<string>)
    requires Layout(lines)
    ensures Parse(lines).Ok? && SameLines(lines, Ended(PatchesLines(Parse(lines).value)))
  {
    if lines != [] {
      var patch := FirstName(lines[0]);
      LayoutReads(AfterSrc, [], patch, None, [lines[0]], lines[1..]);
      ParseStep(Parser([], None), lines[0], lines[1..]);
      assert [lines[0]] + lines[1..] == lines;
    }
  }

  // ---------- the exact conditions ----------

  lemma WrittenLines(patches: seq<Patch>)
    requires Printable(patches)
    ensures SplitLines(Write(patches)) == Ended(PatchesLines(patches))
  {
    PatchesAreOneLine(patches);
    SplitUnlines(PatchesLines(patches));
  }

  /** Reading and writing a text changes nothing but chunk headers exactly when the text has the layout. */
  lemma RewriteKeepsLinesIffLayout(lines: seq<string>)
    ensures Parse(lines).Ok? && SameLines(lines, SplitLines(Write(Parse(lines).value))) <==> Layout(lines)
  {
    if Parse(lines).Ok? {
      ParsedIsPrintable(Parser([], None), lines);
      var patches := Parse(lines).value;
      WrittenLines(patches);
      if SameLines(lines, SplitLines(Write(patches))) {
        PatchesPlace(Start, patches);
        SameParses(Parser([], None), Start, lines, Ended(PatchesLines(patches)));
      }
    }
    if Layout(lines) {
      LayoutIsRead(lines);
    }
  }

  /** A chunk header as `write` would print its four numbers. */
  predicate WrittenHeader(line: string) {
    ReadHeader(line).Some? ==>
      var h := ReadHeader(line).value;
      line == HeaderLine(Chunk(h.src_pos, h.dst_pos, []), h.src_len, h.dst_len) + "\n"
  }

  /** Equal, or chunk headers that differ in the counts only. */
  predicate CountsDiffer(l: string, m: string) {
    l == m || (SameHeader(l, m) && WrittenHeader(l) && WrittenHeader(m))
  }

  ghost predicate OnlyCountsDiffer(a: seq<string>, b: seq<string>) {
    |a| == |b| && forall i :: 0 <= i < |a| ==> CountsDiffer(a[i], b[i])
  }

  ghost predicate AllHeadersWritten(lines: seq<string>) {
    forall i :: 0 <= i < |lines| ==> WrittenHeader(lines[i])
  }

  lemma {:induction false} BodyHeadersWritten(lines: seq<Line>)
    requires forall i :: 0 <= i < |lines| ==> LineOk(lines[i])
    ensures AllHeadersWritten(Ended(BodyLines(lines)))
  {
    if lines != [] {
      BodyIsNoHeader(lines[0]);
      BodyHeadersWritten(lines[1..]);
      ConsText(Mark(lines[0].kind) + lines[0].text, BodyLines(lines[1..]), []);
      Nothing(Ended(BodyLines(lines)));
      Nothing(Ended(BodyLines(lines[1..])));
    }
  }

  lemma BodyIsNoHeader(line: Line)
    requires LineOk(line)
    ensures WrittenHeader(Mark(line.kind) + line.text + "\n")
  {
    StepBodyLine(Parser([], None), line);
  }

  lemma WrittenConcat(a: seq<string>, b: seq<string>)
    requires AllHeadersWritten(a) && AllHeadersWritten(b)
    ensures AllHeadersWritten(a + b)
  {
  }

  lemma {:induction false} ChunkHeadersWritten(chunks: seq<Chunk>)
    requires forall i :: 0 <= i < |chunks| ==> ChunkOk(chunks[i])
    ensures AllHeadersWritten(Ended(ChunksLines(chunks)))
  {
    if chunks != [] {
      var chunk := chunks[0];
      ChunkHeadersWritten(chunks[1..]);
      BodyHeadersWritten(chunk.lines);
      ChunkText(chunk);
      HeaderReads(chunk, |SrcLines(chunk.lines)|, |DstLines(chunk.lines)|);
      assert WrittenHeader(ChunkHeader(chunk) + "\n");
      EndedConcat(ChunkLines(chunk), ChunksLines(chunks[1..]));
      WrittenConcat([ChunkHeader(chunk) + "\n"], Ended(BodyLines(chunk.lines)));
      WrittenConcat(Ended(ChunkLines(chunk)), Ended(ChunksLines(chunks[1..])));
    }
  }

  lemma NamesAreNoHeaders(src: string, dst: string)
    ensures WrittenHeader("--- " + src + "\n") && WrittenHeader("+++ " + dst + "\n")
  {
    assert ("--- " + src + "\n")[0] == '-' && ("+++ " + dst + "\n")[0] == '+';
    OtherFirst("@@ -", "--- " + src + "\n");
    OtherFirst("@@ -", "+++ " + dst + "\n");
    assert ReadField("@@ -", "--- " + src + "\n") == None && ReadField("@@ -", "+++ " + dst + "\n") == None;
  }

  lemma {:induction false} PatchHeadersWritten(patches: seq<Patch>)
    requires Printable(patches)
    ensures AllHeadersWritten(Ended(PatchesLines(patches)))
  {
    if patches != [] {
      var patch := patches[0];
      PatchHeadersWritten(patches[1..]);
      ChunkHeadersWritten(patch.chunks);
      NamesAreNoHeaders(patch.src, patch.dst);
      PatchText(patch, []);
      Nothing(Ended(PatchLines(patch)));
      Nothing(Ended(ChunksLines(patch.chunks)));
      EndedConcat(PatchLines(patch), PatchesLines(patches[1..]));
      var src, dst := "--- " + patch.src + "\n", "+++ " + patch.dst + "\n";
      WrittenConcat([dst], Ended(ChunksLines(patch.chunks)));
      WrittenConcat([src], [dst] + Ended(ChunksLines(patch.chunks)));
      WrittenConcat(Ended(PatchLines(patch)), Ended(PatchesLines(patches[1..])));
    }
  }

  /**
   Only the counts change, and become the true ones, exactly when the text has the
   layout and its headers are as written.
   */
  lemma RewriteFixesCounts(lines: seq<string>)
    ensures Parse(lines).Ok? && OnlyCountsDiffer(lines, SplitLines(Write(Parse(lines).value)))
      <==> Layout(lines) && AllHeadersWritten(lines)
    ensures Parse(lines).Ok? ==> CountsTrue(SplitLines(Write(Parse(lines).value)))
  {
    RewriteKeepsLinesIffLayout(lines);
    if Parse(lines).Ok? {
      ParsedIsPrintable(Parser([], None), lines);
      var patches := Parse(lines).value;
      WrittenLines(patches);
      PatchHeadersWritten(patches);
      WrittenTextIsTrue(patches);
      if OnlyCountsDiffer(lines, Ended(PatchesLines(patches))) {
        assert SameLines(lines, Ended(PatchesLines(patches)));
      }
      if SameLines(lines, Ended(PatchesLines(patches))) && AllHeadersWritten(lines) {
        assert OnlyCountsDiffer(lines, Ended(PatchesLines(patches)));
      }
    }
  }

  lemma SameNumbers(l: string, m: string, following: seq<string>)
    requires CountsDiffer(l, m)
    requires ReadHeader(l).Some? ==> HeaderTrue(ReadHeader(l).value, following)
    requires ReadHeader(m).Some? ==> HeaderTrue(ReadHeader(m).value, following)
    ensures l == m
  {
  }

  lemma {:induction false} TrueCountsAgree(a: seq<string>, b: seq<string>)
    requires OnlyCountsDiffer(a, b) && CountsTrue(a) && CountsTrue(b)
    ensures a == b
  {
    if a != [] {
      forall i | 0 <= i < |a[1..]|
        ensures CountsDiffer(a[1..][i], b[1..][i])
      {
        assert CountsDiffer(a[i + 1], b[i + 1]);
      }
      TrueCountsAgree(a[1..], b[1..]);
      SameNumbers(a[0], b[0], a[1..]);
      assert a == [a[0]] + a[1..] && b == [b[0]] + b[1..];
    }
  }

  /** A text is left as it is exactly when it has the layout and written headers, and its counts are true. */
  lemma RewriteIsIdentityIff(lines: seq<string>)
    ensures Parse(lines).Ok? && SplitLines(Write(Parse(lines).value)) == lines
      <==> Layout(lines) && AllHeadersWritten(lines) && CountsTrue(lines)
  {
    RewriteFixesCounts(lines);
    if Parse(lines).Ok? {
      var rewritten := SplitLines(Write(Parse(lines).value));
      if rewritten == lines {
        assert OnlyCountsDiffer(lines, rewritten);
      }
      if OnlyCountsDiffer(lines, rewritten) && CountsTrue(lines) {
        TrueCountsAgree(lines, rewritten);
      }
    }
  }
}
