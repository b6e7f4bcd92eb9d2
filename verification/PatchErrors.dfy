/** utils/check-style.py: what the line patterns match, and when `parse_patchset` raises. */
module PatchErrors {
  import opened Wrappers
  import opened PatchSet
  import opened PatchRoundTrip

  // ---------- the patterns ----------

  /** A fixed string and `(.*)$` match a line that goes on without a newline, except perhaps a final one. */
  lemma AfterIff(prefix: string, line: string, text: string)
    ensures After(prefix, line) == Some(text) <==>
      OneLine(text) && (line == prefix + text || line == prefix + text + "\n")
  {
    if prefix <= line {
      var rest := line[|prefix|..];
      assert line == prefix + rest;
      if rest != "" && rest[|rest| - 1] == '\n' {
        assert rest == rest[..|rest| - 1] + "\n";
        assert line == prefix + rest[..|rest| - 1] + "\n";
      }
    }
    if OneLine(text) && line == prefix + text {
      assert line[|prefix|..] == text;
      assert text != "" ==> text[|text| - 1] in text;
    }
    if OneLine(text) && line == prefix + text + "\n" {
      AfterItself(prefix, text);
    }
  }

  predicate Numeral(s: string) {
    s != "" && AllDigits(s)
  }

  /** A chunk header, with anything after its closing mark. */
  predicate HeaderText(line: string, a: string, b: string, c: string, d: string, tail: string) {
    && Numeral(a) && Numeral(b) && Numeral(c) && Numeral(d)
    && line == "@@ -" + (a + ("," + (b + (" +" + (c + ("," + (d + (" @@" + tail))))))))
  }

  lemma FieldOf(fixed: string, digits: string, rest: string)
    requires Numeral(digits) && rest != "" && !IsDigit(rest[0])
    ensures ReadField(fixed, fixed + (digits + rest)) == Some((Number(digits), rest))
  {
    assert (fixed + (digits + rest))[|fixed|..] == digits + rest;
    CountDigits(digits, rest);
    assert (digits + rest)[..|digits|] == digits && (digits + rest)[|digits|..] == rest;
  }

  lemma FieldIs(fixed: string, s: string, n: nat, rest: string) returns (digits: string)
    requires ReadField(fixed, s) == Some((n, rest))
    ensures Numeral(digits) && n == Number(digits) && s == fixed + (digits + rest)
  {
    var more := s[|fixed|..];
    digits := more[..DigitCount(more)];
    assert s == fixed + more && more == digits + more[DigitCount(more)..];
  }

  lemma HeaderTextReads(line: string, a: string, b: string, c: string, d: string, tail: string)
    requires HeaderText(line, a, b, c, d, tail)
    ensures ReadHeader(line) == Some(Header(Number(a), Number(b), Number(c), Number(d)))
  {
    var rest4 := " @@" + tail;
    var rest3 := "," + (d + rest4);
    var rest2 := " +" + (c + rest3);
    var rest1 := "," + (b + rest2);
    assert rest4[0] == ' ' && rest3[0] == ',' && rest2[0] == ' ' && rest1[0] == ',';
    FieldOf("@@ -", a, rest1);
    FieldOf(",", b, rest2);
    FieldOf(" +", c, rest3);
    FieldOf(",", d, rest4);
    assert " @@" <= rest4;
    HeaderFrom(line, Number(a), rest1, Number(b), rest2, Number(c), rest3, Number(d), rest4);
  }

  lemma HeaderHasText(line: string, h: Header) returns (a: string, b: string, c: string, d: string, tail: string)
    requires ReadHeader(line) == Some(h)
    ensures HeaderText(line, a, b, c, d, tail) && h == Header(Number(a), Number(b), Number(c), Number(d))
  {
    var rest1 := ReadField("@@ -", line).value.1;
    var rest2 := ReadField(",", rest1).value.1;
    var rest3 := ReadField(" +", rest2).value.1;
    var rest4 := ReadField(",", rest3).value.1;
    a := FieldIs("@@ -", line, h.src_pos, rest1);
    b := FieldIs(",", rest1, h.src_len, rest2);
    c := FieldIs(" +", rest2, h.dst_pos, rest3);
    d := FieldIs(",", rest3, h.dst_len, rest4);
    tail := ClosingMark(rest4);
    Assembled(line, a, rest1, b, rest2, c, rest3, d, rest4, tail);
  }

  lemma ClosingMark(s: string) returns (tail: string)
    requires ReadFixed(" @@", s).Some?
    ensures s == " @@" + tail
  {
    tail := s[3..];
  }

  lemma Assembled(line: string, a: string, rest1: string, b: string, rest2: string, c: string, rest3: string, d: string,
                  rest4: string, tail: string)
    requires Numeral(a) && Numeral(b) && Numeral(c) && Numeral(d)
    requires line == "@@ -" + (a + rest1) && rest1 == "," + (b + rest2) && rest2 == " +" + (c + rest3)
    requires rest3 == "," + (d + rest4) && rest4 == " @@" + tail
    ensures HeaderText(line, a, b, c, d, tail)
  {
  }

  /** The chunk pattern matches exactly the texts of this form, and takes its four numbers. */
  lemma ReadHeaderIff(line: string, h: Header)
    ensures ReadHeader(line) == Some(h) <==>
      exists a, b, c, d, tail :: HeaderText(line, a, b, c, d, tail) &&
        h == Header(Number(a), Number(b), Number(c), Number(d))
  {
    if ReadHeader(line) == Some(h) {
      var a, b, c, d, tail := HeaderHasText(line, h);
    }
    if a, b, c, d, tail :|
      HeaderText(line, a, b, c, d, tail) && h == Header(Number(a), Number(b), Number(c), Number(d)) {
      HeaderTextReads(line, a, b, c, d, tail);
    }
  }

  // ---------- the lines of a file ----------

  function Concat(lines: seq<string>): string {
    if lines == [] then "" else lines[0] + Concat(lines[1..])
  }

  predicate EndsLine(line: string) {
    line != "" && line[|line| - 1] == '\n' && OneLine(line[..|line| - 1])
  }

  /** Every line ends with its newline and has no other, except that the last one may have none. */
  ghost predicate AreLines(lines: seq<string>) {
    forall i :: 0 <= i < |lines| ==> lines[i] != "" && (EndsLine(lines[i]) || (i == |lines| - 1 && OneLine(lines[i])))
  }

  lemma FirstLine(line: string, rest: seq<string>)
    requires OneLine(line) && AreLines(rest)
    ensures AreLines([line + "\n"] + rest) && Concat([line + "\n"] + rest) == line + "\n" + Concat(rest)
  {
    assert (line + "\n")[..|line|] == line;
    assert ([line + "\n"] + rest)[1..] == rest;
  }

  lemma MoveFirst(line: string, text: string)
    requires text != ""
    ensures line + [text[0]] + text[1..] == line + text
  {
  }

  lemma LastLine(line: string, text: string)
    requires OneLine(line) && text == ""
    ensures Concat(SplitFrom(line, text)) == line + text && AreLines(SplitFrom(line, text))
  {
    assert line != "" ==> SplitFrom(line, text)[1..] == [];
    assert line + text == line;
  }

  lemma {:induction false} SplitFromKeeps(line: string, text: string)
    requires OneLine(line)
    ensures Concat(SplitFrom(line, text)) == line + text && AreLines(SplitFrom(line, text))
    decreases |text|
  {
    if text == "" {
      LastLine(line, text);
    } else if text[0] == '\n' {
      SplitFromKeeps("", text[1..]);
      FirstLine(line, SplitFrom("", text[1..]));
      MoveFirst(line, text);
    } else {
      SplitFromKeeps(line + [text[0]], text[1..]);
      MoveFirst(line, text);
    }
  }

  /** Iterating over a file yields its text, cut after every newline. */
  lemma SplitLinesKeeps(text: string)
    ensures Concat(SplitLines(text)) == text && AreLines(SplitLines(text))
  {
    SplitFromKeeps("", text);
  }

  // ---------- what a line is ----------

  predicate IsSrcName(line: string) {
    After("--- ", line).Some?
  }

  predicate IsDstName(line: string) {
    After("+++ ", line).Some?
  }

  predicate IsChunk(line: string) {
    ReadHeader(line).Some?
  }

  lemma KindsExclude(line: string)
    ensures !(IsSrcName(line) && IsDstName(line)) && !(IsSrcName(line) && IsChunk(line))
    ensures !(IsDstName(line) && IsChunk(line))
  {
    assert IsSrcName(line) ==> line[0] == '-';
    assert IsDstName(line) ==> line[0] == '+';
    assert IsChunk(line) ==> ReadFixed("@@ -", line).Some? && line[0] == '@';
  }

  /** There is a line before position k that names a source file; `before` tells whether there was one already. */
  ghost predicate Named(before: bool, lines: seq<string>, k: int) {
    before || exists j :: 0 <= j < k && j < |lines| && IsSrcName(lines[j])
  }

  ghost predicate Started(before: bool, lines: seq<string>, k: int) {
    before || exists j :: 0 <= j < k && j < |lines| && IsChunk(lines[j])
  }

  /**
   What is wrong with a line: it is the name of a destination or a chunk header where no
   source file was named, a body line where no chunk header came before, or of no kind.
   */
  function FaultOf(named: bool, started: bool, line: string): Option<Error> {
    if IsSrcName(line) then None
    else if IsDstName(line) || IsChunk(line) then if named then None else Some(AttributeError)
    else if IsBody(line) then if started then None else Some(UnboundLocalError)
    else Some(NoMatch)
  }

  ghost function Fault(named: bool, started: bool, lines: seq<string>, k: nat): Option<Error>
    requires k < |lines|
  {
    FaultOf(Named(named, lines, k), Started(started, lines, k), lines[k])
  }

  // ---------- the first fault is raised ----------

  lemma StepFault(s: Reader, line: string)
    ensures
      var r := Step(s, line);
      match FaultOf(s.patchset != [], s.chunk.Some?, line)
      case Some(e) => r == Err(e)
      case None =>
        && r.Ok?
        && (r.value.patchset != [] <==> s.patchset != [] || IsSrcName(line))
        && (r.value.chunk.Some? <==> s.chunk.Some? || IsChunk(line))
  {
    KindsExclude(line);
  }

  lemma FaultShifts(named: bool, started: bool, lines: seq<string>, k: nat)
    requires k + 1 < |lines|
    ensures Fault(named, started, lines, k + 1)
      == Fault(named || IsSrcName(lines[0]), started || IsChunk(lines[0]), lines[1..], k)
  {
    NamedShifts(named, lines, k);
    StartedShifts(started, lines, k);
  }

  lemma NamedShifts(before: bool, lines: seq<string>, k: nat)
    requires k + 1 < |lines|
    ensures Named(before, lines, k + 1) <==> Named(before || IsSrcName(lines[0]), lines[1..], k)
  {
    if j :| 0 <= j < k + 1 && IsSrcName(lines[j]) {
      assert j > 0 ==> lines[1..][j - 1] == lines[j];
    }
    if j :| 0 <= j < k && IsSrcName(lines[1..][j]) {
      assert lines[j + 1] == lines[1..][j];
    }
  }

  lemma StartedShifts(before: bool, lines: seq<string>, k: nat)
    requires k + 1 < |lines|
    ensures Started(before, lines, k + 1) <==> Started(before || IsChunk(lines[0]), lines[1..], k)
  {
    if j :| 0 <= j < k + 1 && IsChunk(lines[j]) {
      assert j > 0 ==> lines[1..][j - 1] == lines[j];
    }
    if j :| 0 <= j < k && IsChunk(lines[1..][j]) {
      assert lines[j + 1] == lines[1..][j];
    }
  }

  /** The k-th line is the first one that is wrong. */
  ghost predicate FirstFault(named: bool, started: bool, lines: seq<string>, k: nat, e: Error) {
    && k < |lines| && Fault(named, started, lines, k) == Some(e)
    && forall j: nat :: j < k ==> Fault(named, started, lines, j) == None
  }

  /** The first line that is wrong is wrong in this way. */
  ghost predicate Fails(named: bool, started: bool, lines: seq<string>, e: Error) {
    exists k :: FirstFault(named, started, lines, k, e)
  }

  ghost predicate Faultless(named: bool, started: bool, lines: seq<string>) {
    forall k: nat :: k < |lines| ==> Fault(named, started, lines, k) == None
  }

  lemma {:induction false} ParseFindsFault(s: Reader, lines: seq<string>)
    ensures ParseFrom(s, lines).Ok? ==> Faultless(s.patchset != [], s.chunk.Some?, lines)
    ensures ParseFrom(s, lines).Err? ==> Fails(s.patchset != [], s.chunk.Some?, lines, ParseFrom(s, lines).error)
    decreases |lines|
  {
    if lines != [] {
      var named, started, r := s.patchset != [], s.chunk.Some?, Step(s, lines[0]);
      StepFault(s, lines[0]);
      assert Fault(named, started, lines, 0) == FaultOf(named, started, lines[0]);
      if r.Err? {
        assert FirstFault(named, started, lines, 0, r.error);
      } else {
        ParseFindsFault(r.value, lines[1..]);
        var named', started' := named || IsSrcName(lines[0]), started || IsChunk(lines[0]);
        if ParseFrom(s, lines).Ok? {
          StillFaultless(named, started, lines);
        } else {
          var k :| FirstFault(named', started', lines[1..], k, ParseFrom(s, lines).error);
          FaultAfterFirst(named, started, lines, k, ParseFrom(s, lines).error);
        }
      }
    }
  }

  lemma StillFaultless(named: bool, started: bool, lines: seq<string>)
    requires lines != [] && Fault(named, started, lines, 0) == None
    requires Faultless(named || IsSrcName(lines[0]), started || IsChunk(lines[0]), lines[1..])
    ensures Faultless(named, started, lines)
  {
    forall k: nat | k < |lines|
      ensures Fault(named, started, lines, k) == None
    {
      if k > 0 {
        FaultShifts(named, started, lines, k - 1);
      }
    }
  }

  lemma FaultAfterFirst(named: bool, started: bool, lines: seq<string>, k: nat, e: Error)
    requires lines != [] && Fault(named, started, lines, 0) == None
    requires FirstFault(named || IsSrcName(lines[0]), started || IsChunk(lines[0]), lines[1..], k, e)
    ensures FirstFault(named, started, lines, k + 1, e)
  {
    FaultShifts(named, started, lines, k);
    forall j: nat | j < k + 1
      ensures Fault(named, started, lines, j) == None
    {
      if j > 0 {
        FaultShifts(named, started, lines, j - 1);
        var rest, named', started' := lines[1..], named || IsSrcName(lines[0]), started || IsChunk(lines[0]);
        assert Fault(named', started', rest, j - 1) == None;
      }
    }
  }

  /** Parsing succeeds exactly on texts without a fault; otherwise it raises the error of the first one. */
  lemma ParseFailsAtFirstFault(lines: seq<string>)
    ensures Parse(lines).Ok? <==> Faultless(false, false, lines)
    ensures forall e :: Parse(lines) == Err(e) <==> Fails(false, false, lines, e)
  {
    ParseFindsFault(Parser([], None), lines);
    forall e, k | FirstFault(false, false, lines, k, e)
      ensures Parse(lines) == Err(e)
    {
      if Parse(lines).Err? {
        var i :| FirstFault(false, false, lines, i, Parse(lines).error);
        assert i == k;
      }
    }
  }

  lemma SameFault(before: seq<string>, lines: seq<string>, k: nat)
    requires k < |before| <= |lines| && forall i :: 0 <= i < |before| ==> lines[i] == before[i]
    ensures Fault(false, false, lines, k) == Fault(false, false, before, k)
  {
    assert forall j :: 0 <= j < k ==> lines[j] == before[j];
    assert Named(false, lines, k) == Named(false, before, k);
    assert Started(false, lines, k) == Started(false, before, k);
  }

  /** The line by which diff marks a missing final newline is of no kind. */
  lemma NoNewlineMarkFails(before: seq<string>, line: string, after: seq<string>)
    requires Parse(before).Ok? && line != "" && line[0] == '\\'
    ensures Parse(before + [line] + after) == Err(NoMatch)
  {
    var lines, k := before + [line] + after, |before|;
    ParseFailsAtFirstFault(before);
    ParseFailsAtFirstFault(lines);
    NoKind(line);
    forall j: nat | j < k
      ensures Fault(false, false, lines, j) == None
    {
      SameFault(before, lines, j);
    }
    assert lines[k] == line;
    assert FirstFault(false, false, lines, k, NoMatch);
  }

  lemma NoKind(line: string)
    requires line != "" && line[0] !in {'-', '+', ' ', '@'}
    ensures !IsSrcName(line) && !IsDstName(line) && !IsChunk(line) && !IsBody(line)
  {
    OtherFirst("@@ -", line);
    assert ReadField("@@ -", line) == None;
  }
}
