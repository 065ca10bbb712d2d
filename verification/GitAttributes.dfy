/** The `.gitattributes` reconciler of the GitHub adapter, down to the characters: lines are split,
    trimmed and collected once each in order; legacy lines go, required lines are added. */
module GitAttributes {
  import opened Common

  const LFS := " filter=lfs diff=lfs merge=lfs -text"

  function Rule(directory: string, extension: string): string {
    directory + ("/**/*." + (extension + LFS))
  }

  const REQUIRED := [Rule(".omnia-reader/library", "epub"), Rule(".omnia-reader/library", "pdf")]

  const LEGACY := [
    Rule(".omnia-reader/v1/library", "epub"), Rule(".omnia-reader/v1/library", "pdf"),
    Rule(".omnia-reader/v1/books", "epub"), Rule(".omnia-reader/v1/books", "pdf")]

  // ----- characters -----

  /** White space and line terminators as `trim` removes them. */
  predicate Space(c: char) {
    var n := c as int;
    || 9 <= n <= 13 || n == 32 || n == 0xA0 || n == 0x1680 || 0x2000 <= n <= 0x200A
    || n == 0x2028 || n == 0x2029 || n == 0x202F || n == 0x205F || n == 0x3000 || n == 0xFEFF
  }

  function TrimStart(s: string): string {
    if s != "" && Space(s[0]) then TrimStart(s[1..]) else s
  }

  function TrimEnd(s: string): string {
    if s != "" && Space(s[|s| - 1]) then TrimEnd(s[..|s| - 1]) else s
  }

  function Trim(s: string): string {
    TrimEnd(TrimStart(s))
  }

  /** Already trimmed, not blank, and on one line. */
  predicate Clean(line: string) {
    line != "" && !Space(line[0]) && !Space(line[|line| - 1]) && '\n' !in line
  }

  lemma {:induction false} TrimStartShape(s: string)
    ensures TrimStart(s) == "" || !Space(TrimStart(s)[0])
    ensures forall c :: c in TrimStart(s) ==> c in s
  {
    if s != "" && Space(s[0]) { TrimStartShape(s[1..]); }
  }

  lemma {:induction false} TrimEndShape(s: string)
    ensures TrimEnd(s) <= s
    ensures TrimEnd(s) == "" || !Space(TrimEnd(s)[|TrimEnd(s)| - 1])
  {
    if s != "" && Space(s[|s| - 1]) { TrimEndShape(s[..|s| - 1]); }
  }

  lemma TrimIsClean(s: string)
    requires '\n' !in s
    ensures Trim(s) == "" || Clean(Trim(s))
  {
    TrimStartShape(s);
    TrimEndShape(TrimStart(s));
    var t := Trim(s);
    if t != "" {
      assert t[0] == TrimStart(s)[0];
      assert forall c :: c in t ==> c in TrimStart(s);
    }
  }

  lemma CleanIsTrimmed(line: string)
    requires Clean(line)
    ensures Trim(line) == line
  {
  }

  // ----- splitting at \r?\n -----

  function WithoutReturn(s: string): string {
    if s != "" && s[|s| - 1] == '\r' then s[..|s| - 1] else s
  }

  /** The text before each terminator and after the last one. */
  function Lines(s: string): seq<string> {
    LinesFrom(s, 0)
  }

  function LinesFrom(s: string, n: nat): seq<string>
    requires n <= |s|
    decreases |s|, |s| - n
  {
    if n == |s| then [s]
    else if s[n] == '\n' then [WithoutReturn(s[..n])] + LinesFrom(s[n + 1..], 0)
    else LinesFrom(s, n + 1)
  }

  lemma {:induction false} LinesHaveNoTerminator(s: string, n: nat)
    requires n <= |s| && '\n' !in s[..n]
    ensures forall i | 0 <= i < |LinesFrom(s, n)| :: '\n' !in LinesFrom(s, n)[i]
    decreases |s|, |s| - n
  {
    if n == |s| {
      assert s[..n] == s;
    } else if s[n] == '\n' {
      LinesHaveNoTerminator(s[n + 1..], 0);
    } else {
      assert s[..n + 1] == s[..n] + [s[n]];
      LinesHaveNoTerminator(s, n + 1);
    }
  }

  /** A line without a terminator, then a terminator, is the first line of the text. */
  lemma {:induction false} FirstLine(line: string, rest: string, n: nat)
    requires n <= |line| && '\n' !in line
    ensures LinesFrom(line + "\n" + rest, n) == [WithoutReturn(line)] + Lines(rest)
    decreases |line| - n
  {
    var s := line + "\n" + rest;
    if n < |line| {
      assert s[n] == line[n];
      FirstLine(line, rest, n + 1);
    } else {
      assert s[n] == '\n' && s[..n] == line && s[n + 1..] == rest;
    }
  }

  // ----- collecting lines -----

  /** A JavaScript Set keeps the order of first insertion. */
  function Add(lines: seq<string>, line: string): seq<string> {
    if line in lines then lines else lines + [line]
  }

  function Collected(raw: seq<string>): seq<string> {
    if raw == [] then [] else
    var line := Trim(raw[|raw| - 1]);
    var before := Collected(raw[..|raw| - 1]);
    if line == "" then before else Add(before, line)
  }

  function Parsed(content: string): seq<string> {
    Collected(Lines(content))
  }

  predicate Distinct(lines: seq<string>) {
    forall i, j | 0 <= i < j < |lines| :: lines[i] != lines[j]
  }

  predicate AllClean(lines: seq<string>) {
    forall i | 0 <= i < |lines| :: Clean(lines[i])
  }

  lemma {:induction false} CollectedShape(raw: seq<string>)
    requires forall i | 0 <= i < |raw| :: '\n' !in raw[i]
    ensures Distinct(Collected(raw)) && AllClean(Collected(raw))
    ensures forall line :: line in Collected(raw) <==>
              line != "" && exists i | 0 <= i < |raw| :: Trim(raw[i]) == line
  {
    if raw != [] {
      var n := |raw| - 1;
      CollectedShape(raw[..n]);
      TrimIsClean(raw[n]);
      forall line ensures line in Collected(raw) <==>
          line != "" && exists i | 0 <= i < |raw| :: Trim(raw[i]) == line {
        if i :| 0 <= i < |raw| && Trim(raw[i]) == line && line != "" {
          if i < n { assert raw[..n][i] == raw[i]; }
        }
        if line in Collected(raw[..n]) {
          var i :| 0 <= i < n && Trim(raw[..n][i]) == line;
          assert Trim(raw[i]) == line;
        }
      }
    }
  }

  lemma ParsedShape(content: string)
    ensures Distinct(Parsed(content)) && AllClean(Parsed(content))
  {
    LinesHaveNoTerminator(content, 0);
    CollectedShape(Lines(content));
  }

  /** Clean lines that occur once are collected as they are. */
  lemma {:induction false} CollectedClean(lines: seq<string>)
    requires Distinct(lines) && AllClean(lines)
    ensures Collected(lines) == lines
  {
    if lines != [] {
      var n := |lines| - 1;
      CollectedClean(lines[..n]);
      CleanIsTrimmed(lines[n]);
      assert lines[n] !in lines[..n];
      assert lines == lines[..n] + [lines[n]];
    }
  }

  /** `a` is the trimmed text of a line with no `b` at or before it. */
  ghost predicate FirstBefore(raw: seq<string>, a: string, b: string) {
    exists i :: 0 <= i < |raw| && Trim(raw[i]) == a && forall j | 0 <= j <= i :: Trim(raw[j]) != b
  }

  lemma {:induction false} CollectedHas(raw: seq<string>, i: nat)
    requires i < |raw| && Trim(raw[i]) != ""
    ensures Trim(raw[i]) in Collected(raw)
  {
    var n := |raw| - 1;
    if i < n {
      assert raw[..n][i] == raw[i];
      CollectedHas(raw[..n], i);
    }
  }

  /** Lines are collected in the order of their first occurrence. */
  lemma {:induction false} CollectedInOrder(raw: seq<string>, a: string, b: string)
    requires a != "" && b in Collected(raw) && FirstBefore(raw, a, b)
    ensures Before(Collected(raw), a, b)
  {
    var n := |raw| - 1;
    var i :| 0 <= i < |raw| && Trim(raw[i]) == a && forall j | 0 <= j <= i :: Trim(raw[j]) != b;
    var rest := Collected(raw[..n]);
    if b in rest {
      var k := CollectedAt(raw[..n], b);
      assert raw[..n][k] == raw[k];
      assert forall j | 0 <= j <= i :: raw[..n][j] == raw[j];
      CollectedInOrder(raw[..n], a, b);
      var p, q :| 0 <= p < q < |rest| && rest[p] == a && rest[q] == b;
      assert Collected(raw)[p] == a && Collected(raw)[q] == b;
    } else {
      assert raw[..n][i] == raw[i];
      CollectedHas(raw[..n], i);
      var p :| 0 <= p < |rest| && rest[p] == a;
      assert Collected(raw)[p] == a && Collected(raw)[|rest|] == b;
    }
  }

  lemma {:induction false} CollectedAt(raw: seq<string>, line: string) returns (k: nat)
    requires line in Collected(raw)
    ensures k < |raw| && Trim(raw[k]) == line
  {
    var n := |raw| - 1;
    if Trim(raw[n]) == line {
      k := n;
    } else {
      k := CollectedAt(raw[..n], line);
    }
  }

  // ----- writing -----

  function Joined(lines: seq<string>): string {
    if lines == [] then "" else if |lines| == 1 then lines[0] else lines[0] + "\n" + Joined(lines[1..])
  }

  function Rendered(lines: seq<string>): string {
    Joined(lines) + "\n"
  }

  lemma {:induction false} RenderedLines(lines: seq<string>)
    requires AllClean(lines) && lines != []
    ensures Lines(Rendered(lines)) == lines + [""]
  {
    var line := lines[0];
    assert WithoutReturn(line) == line;
    if |lines| == 1 {
      FirstLine(line, "", 0);
      assert line + "\n" + "" == Rendered(lines);
      assert Lines("") == [""];
      assert lines == [line];
    } else {
      RenderedLines(lines[1..]);
      FirstLine(line, Rendered(lines[1..]), 0);
      assert line + "\n" + Rendered(lines[1..]) == Rendered(lines);
      assert lines == [line] + lines[1..];
    }
  }

  /** What is written is read back line by line. */
  lemma ParsedRendered(lines: seq<string>)
    requires Distinct(lines) && AllClean(lines) && lines != []
    ensures Parsed(Rendered(lines)) == lines
  {
    RenderedLines(lines);
    CollectedClean(lines);
    var raw := lines + [""];
    assert raw[..|raw| - 1] == lines && raw[|raw| - 1] == "";
  }

  // ----- reconciling -----

  function Remove(lines: seq<string>, line: string): seq<string> {
    if lines == [] then [] else
    var n := |lines| - 1;
    Remove(lines[..n], line) + (if lines[n] == line then [] else [lines[n]])
  }

  function RemoveAll(lines: seq<string>, gone: seq<string>): seq<string> {
    if gone == [] then lines else Remove(RemoveAll(lines, gone[..|gone| - 1]), gone[|gone| - 1])
  }

  function AddAll(lines: seq<string>, wanted: seq<string>): seq<string> {
    if wanted == [] then lines else Add(AddAll(lines, wanted[..|wanted| - 1]), wanted[|wanted| - 1])
  }

  function Reconciled(lines: seq<string>): seq<string> {
    AddAll(RemoveAll(lines, LEGACY), REQUIRED)
  }

  predicate NeedsChange(lines: seq<string>) {
    || (exists i | 0 <= i < |LEGACY| :: LEGACY[i] in lines)
    || (exists i | 0 <= i < |REQUIRED| :: REQUIRED[i] !in lines)
  }

  lemma {:induction false} RemoveHas(lines: seq<string>, line: string)
    ensures forall l :: l in Remove(lines, line) <==> l in lines && l != line
  {
    if lines != [] {
      var n := |lines| - 1;
      RemoveHas(lines[..n], line);
      assert lines == lines[..n] + [lines[n]];
    }
  }

  lemma {:induction false} RemoveShape(lines: seq<string>, line: string)
    requires Distinct(lines) && AllClean(lines)
    ensures Distinct(Remove(lines, line)) && AllClean(Remove(lines, line))
  {
    if lines != [] {
      var n := |lines| - 1;
      RemoveShape(lines[..n], line);
      RemoveHas(lines[..n], line);
      var rest := Remove(lines[..n], line);
      forall i | 0 <= i < |rest| ensures rest[i] != lines[n] {
        assert rest[i] in lines[..n];
      }
    }
  }

  lemma {:induction false} RemoveAllHas(lines: seq<string>, gone: seq<string>)
    ensures forall l :: l in RemoveAll(lines, gone) <==> l in lines && l !in gone
  {
    if gone != [] {
      var n := |gone| - 1;
      RemoveAllHas(lines, gone[..n]);
      RemoveHas(RemoveAll(lines, gone[..n]), gone[n]);
      assert gone == gone[..n] + [gone[n]];
    }
  }

  lemma {:induction false} RemoveAllShape(lines: seq<string>, gone: seq<string>)
    requires Distinct(lines) && AllClean(lines)
    ensures Distinct(RemoveAll(lines, gone)) && AllClean(RemoveAll(lines, gone))
  {
    if gone != [] {
      var n := |gone| - 1;
      RemoveAllShape(lines, gone[..n]);
      RemoveShape(RemoveAll(lines, gone[..n]), gone[n]);
    }
  }

  lemma {:induction false} AddAllShape(lines: seq<string>, wanted: seq<string>)
    requires Distinct(lines) && AllClean(lines) && AllClean(wanted)
    ensures Distinct(AddAll(lines, wanted)) && AllClean(AddAll(lines, wanted))
    ensures forall l :: l in AddAll(lines, wanted) <==> l in lines || l in wanted
    ensures lines <= AddAll(lines, wanted)
  {
    if wanted != [] {
      var n := |wanted| - 1;
      AddAllShape(lines, wanted[..n]);
      assert wanted == wanted[..n] + [wanted[n]];
    }
  }

  /** `a` comes before `b`. */
  ghost predicate Before(lines: seq<string>, a: string, b: string) {
    exists i, j :: 0 <= i < j < |lines| && lines[i] == a && lines[j] == b
  }

  lemma {:induction false} RemoveKeepsOrder(lines: seq<string>, line: string, a: string, b: string)
    requires Before(lines, a, b) && a != line && b != line
    ensures Before(Remove(lines, line), a, b)
  {
    var n := |lines| - 1;
    var i, j :| 0 <= i < j < |lines| && lines[i] == a && lines[j] == b;
    if j < n {
      assert lines[..n][i] == a && lines[..n][j] == b;
      RemoveKeepsOrder(lines[..n], line, a, b);
      var rest := Remove(lines[..n], line);
      var i', j' :| 0 <= i' < j' < |rest| && rest[i'] == a && rest[j'] == b;
      assert Remove(lines, line)[i'] == a && Remove(lines, line)[j'] == b;
    } else {
      assert lines[..n][i] == a;
      var i' := KeptAt(lines[..n], line, a);
      var all := Remove(lines, line);
      assert all[i'] == a && all[|all| - 1] == b;
    }
  }

  lemma {:induction false} KeptAt(lines: seq<string>, line: string, a: string) returns (i: nat)
    requires a in lines && a != line
    ensures i < |Remove(lines, line)| && Remove(lines, line)[i] == a
  {
    var n := |lines| - 1;
    if lines[n] == a {
      i := |Remove(lines[..n], line)|;
    } else {
      assert a in lines[..n] by { assert lines == lines[..n] + [lines[n]]; }
      i := KeptAt(lines[..n], line, a);
    }
  }

  lemma {:induction false} RemoveAllKeepsOrder(lines: seq<string>, gone: seq<string>, a: string, b: string)
    requires Before(lines, a, b) && a !in gone && b !in gone
    ensures Before(RemoveAll(lines, gone), a, b)
  {
    if gone != [] {
      var n := |gone| - 1;
      assert gone == gone[..n] + [gone[n]];
      RemoveAllKeepsOrder(lines, gone[..n], a, b);
      RemoveKeepsOrder(RemoveAll(lines, gone[..n]), gone[n], a, b);
    }
  }

  /** The loop that deletes lines from the Set. */
  method DeleteLines(lines: seq<string>, gone: seq<string>) returns (kept: seq<string>, changed: bool)
    requires Distinct(gone)
    ensures kept == RemoveAll(lines, gone)
    ensures changed <==> exists k | 0 <= k < |gone| :: gone[k] in lines
  {
    kept, changed := lines, false;
    for i := 0 to |gone|
      invariant kept == RemoveAll(lines, gone[..i])
      invariant changed <==> exists k | 0 <= k < i :: gone[k] in lines
    {
      RemoveAllHas(lines, gone[..i]);
      assert gone[..i + 1][..i] == gone[..i];
      assert gone[i] !in gone[..i];
      if gone[i] in kept {
        changed := true;
      }
      kept := Remove(kept, gone[i]);
    }
    assert gone[..|gone|] == gone;
  }

  /** The loop that adds the lines the Set does not have. */
  method AddLines(lines: seq<string>, wanted: seq<string>) returns (all: seq<string>, changed: bool)
    requires Distinct(lines) && AllClean(lines) && Distinct(wanted) && AllClean(wanted)
    ensures all == AddAll(lines, wanted)
    ensures changed <==> exists k | 0 <= k < |wanted| :: wanted[k] !in lines
  {
    all, changed := lines, false;
    for i := 0 to |wanted|
      invariant all == AddAll(lines, wanted[..i])
      invariant changed <==> exists k | 0 <= k < i :: wanted[k] !in lines
    {
      AddAllShape(lines, wanted[..i]);
      assert wanted[..i + 1][..i] == wanted[..i];
      assert wanted[i] !in wanted[..i];
      if wanted[i] !in all {
        all := all + [wanted[i]];
        changed := true;
      }
    }
    assert wanted[..|wanted|] == wanted;
  }

  /** The text that is written when either loop changed the Set. */
  method ReconciledGitAttributes(content: string) returns (result: Option<string>)
    ensures result ==
              if NeedsChange(Parsed(content)) then Some(Rendered(Reconciled(Parsed(content)))) else None
  {
    var lines := Parsed(content);
    ParsedShape(content);
    ConstantLines();
    var kept, removed := DeleteLines(lines, LEGACY);
    RemoveAllShape(lines, LEGACY);
    RemoveAllHas(lines, LEGACY);
    var all, added := AddLines(kept, REQUIRED);
    MissingAlike(lines, kept);
    return if removed || added then Some(Rendered(all)) else None;
  }

  lemma MissingAlike(lines: seq<string>, kept: seq<string>)
    requires forall l :: l in kept <==> l in lines && l !in LEGACY
    ensures (exists k | 0 <= k < |REQUIRED| :: REQUIRED[k] !in kept)
       <==> (exists k | 0 <= k < |REQUIRED| :: REQUIRED[k] !in lines)
  {
    ConstantLines();
    forall k | 0 <= k < |REQUIRED| ensures REQUIRED[k] in kept <==> REQUIRED[k] in lines {
      assert REQUIRED[k] !in LEGACY;
    }
  }

  lemma RuleIsClean(directory: string, extension: string)
    requires directory != "" && !Space(directory[0]) && '\n' !in directory && '\n' !in extension
    ensures Clean(Rule(directory, extension))
  {
    assert LFS[35] == 't' && |LFS| == 36;
    assert '\n' !in LFS && '\n' !in "/**/*.";
    var tail := "/**/*." + (extension + LFS);
    assert tail[|tail| - 1] == LFS[35];
    assert '\n' !in tail;
  }

  lemma RulesDiffer(d: string, d': string, e: string, e': string)
    requires d != d' && |d| <= |d'| && '*' !in d' && '*' !in d
    ensures Rule(d, e) != Rule(d', e')
  {
    var r, r' := Rule(d, e), Rule(d', e');
    if |d| == |d'| {
      assert r[..|d|] == d && r'[..|d'|] == d';
    } else if |d'| >= |d| + 2 {
      assert r[|d| + 1] == "/**/*."[1];
      assert r'[|d| + 1] == d'[|d| + 1];
    } else {
      assert r[|d| + 1] == "/**/*."[1];
      assert r'[|d| + 1] == "/**/*."[0];
    }
  }

  lemma ExtensionsDiffer(d: string, e: string, e': string)
    requires |e| != |e'|
    ensures Rule(d, e) != Rule(d, e')
  {
  }

  /** The configured lines are clean, all different, and no line is both required and legacy. */
  lemma ConstantLines()
    ensures AllClean(REQUIRED) && Distinct(REQUIRED) && Distinct(LEGACY)
    ensures forall k | 0 <= k < |REQUIRED| :: REQUIRED[k] !in LEGACY
    ensures forall k | 0 <= k < |LEGACY| :: LEGACY[k] !in REQUIRED
  {
    var now, library, books := ".omnia-reader/library", ".omnia-reader/v1/library", ".omnia-reader/v1/books";
    assert now[0] == '.' && '\n' !in now && '\n' !in "epub" && '\n' !in "pdf";
    RuleIsClean(now, "epub");
    RuleIsClean(now, "pdf");
    assert '*' !in now && '*' !in library && '*' !in books;
    assert |now| == 21 && |library| == 24 && |books| == 22;
    ExtensionsDiffer(now, "epub", "pdf");
    ExtensionsDiffer(library, "epub", "pdf");
    ExtensionsDiffer(books, "epub", "pdf");
    AllDiffer(now, books);
    AllDiffer(now, library);
    AllDiffer(books, library);
  }

  lemma AllDiffer(d: string, d': string)
    requires d != d' && |d| <= |d'| && '*' !in d && '*' !in d'
    ensures Rule(d, "epub") != Rule(d', "epub") && Rule(d, "epub") != Rule(d', "pdf")
    ensures Rule(d, "pdf") != Rule(d', "epub") && Rule(d, "pdf") != Rule(d', "pdf")
  {
    RulesDiffer(d, d', "epub", "epub");
    RulesDiffer(d, d', "epub", "pdf");
    RulesDiffer(d, d', "pdf", "epub");
    RulesDiffer(d, d', "pdf", "pdf");
  }

  /** What a change writes, read back: every required line, no legacy line, and every other line of the
      input once, in the order of first occurrence. */
  lemma ReconciledContents(content: string)
    requires NeedsChange(Parsed(content))
    ensures var before := Parsed(content);
            var after := Parsed(Rendered(Reconciled(before)));
            && after == Reconciled(before) && Distinct(after)
            && (forall line :: line in after <==> line in REQUIRED || (line in before && line !in LEGACY))
            && (forall a, b | Before(before, a, b) && a !in LEGACY && b !in LEGACY :: Before(after, a, b))
  {
    var before := Parsed(content);
    ParsedShape(content);
    ConstantLines();
    RemoveAllShape(before, LEGACY);
    RemoveAllHas(before, LEGACY);
    var kept := RemoveAll(before, LEGACY);
    AddAllShape(kept, REQUIRED);
    var after := Reconciled(before);
    assert REQUIRED[0] in after;
    ParsedRendered(after);
    forall line ensures line in after <==> line in REQUIRED || (line in before && line !in LEGACY) {
    }
    forall a, b | Before(before, a, b) && a !in LEGACY && b !in LEGACY ensures Before(after, a, b) {
      RemoveAllKeepsOrder(before, LEGACY, a, b);
      PrefixKeepsOrder(kept, after, a, b);
    }
  }

  lemma PrefixKeepsOrder(kept: seq<string>, all: seq<string>, a: string, b: string)
    requires kept <= all && Before(kept, a, b)
    ensures Before(all, a, b)
  {
  }

  /** One step reaches the fixed point: what was written needs no further change. */
  lemma ReconciledOnce(content: string)
    requires NeedsChange(Parsed(content))
    ensures !NeedsChange(Parsed(Rendered(Reconciled(Parsed(content)))))
  {
    ReconciledContents(content);
    var after := Parsed(Rendered(Reconciled(Parsed(content))));
    forall i | 0 <= i < |REQUIRED| ensures REQUIRED[i] in after {
    }
    ConstantLines();
    forall i | 0 <= i < |LEGACY| ensures LEGACY[i] !in after {
    }
  }
}
