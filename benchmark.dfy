/** The benchmark console's result scraper: each line of the load tool's output is
    searched for "OP: <rps> requests per second, p50=<latency> msec", the matches
    become 7-field rows, and the rows are appended to the CSV log, whose header is
    written only when the log is first created. */
module Benchmark {
  import opened Wire

  // ---------------------------------------------------------------------------
  // Character classes of the pattern (ASCII)
  // ---------------------------------------------------------------------------

  predicate IsUpper(c: char)
  {
    'A' <= c <= 'Z'
  }

  /** `\s` on a `str` pattern, and what `str.strip()` removes: the characters Python's
      `str.isspace` accepts. These are tab, line feed, vertical tab, form feed and
      carriage return (9-13), the separators 0x1C-0x1F, space, U+0085, U+00A0, U+1680,
      U+2000-U+200A, U+2028, U+2029, U+202F, U+205F and U+3000. */
  predicate IsSpace(c: char)
  {
    var n := c as int;
    || 9 <= n <= 13 || 0x1C <= n <= 0x20 || n == 0x85 || n == 0xA0 || n == 0x1680
    || 0x2000 <= n <= 0x200A || n == 0x2028 || n == 0x2029 || n == 0x202F || n == 0x205F || n == 0x3000
  }

  /** `[\d\.]`, with `\d` taken as the ASCII digits. */
  predicate IsNumChar(c: char)
  {
    '0' <= c <= '9' || c == '.'
  }

  predicate AllOf(w: string, p: char -> bool)
  {
    forall k :: 0 <= k < |w| ==> p(w[k])
  }

  /** A non-empty run of characters of one class: what `X+` matches. */
  predicate Token(w: string, p: char -> bool)
  {
    |w| > 0 && AllOf(w, p)
  }

  /** The end of the longest run of `p`-characters starting at `i`. */
  function RunEnd(s: string, i: nat, p: char -> bool): (j: nat)
    requires i <= |s|
    ensures i <= j <= |s|
    ensures j == |s| || !p(s[j])
    decreases |s| - i
  {
    if i < |s| && p(s[i]) then RunEnd(s, i + 1, p) else i
  }

  /** Every character of the run is in the class. */
  lemma {:induction false} RunEndInClass(s: string, i: nat, p: char -> bool)
    requires i <= |s|
    ensures forall k :: i <= k < RunEnd(s, i, p) ==> p(s[k])
    decreases |s| - i
  {
    if i < |s| && p(s[i]) {
      RunEndInClass(s, i + 1, p);
    }
  }

  /** `lit` occurs in `s` at position `i`. */
  predicate At(s: string, i: nat, lit: string)
  {
    i + |lit| <= |s| && s[i..i + |lit|] == lit
  }

  const RPS_TEXT: string := "requests per second,"
  const P50_TEXT: string := "p50="
  const MSEC: string := "msec"

  /** The three groups of one match: command, requests per second, p50 latency. */
  datatype Capture = Capture(command: string, rps: string, p50: string)

  // ---------------------------------------------------------------------------
  // The pattern
  // ---------------------------------------------------------------------------

  /** One element of a pattern: `X+` for a character class, or a literal text. */
  datatype Elem = Plus(inClass: char -> bool) | Lit(text: string)

  /** `([A-Z]+):\s+([\d\.]+)\s+requests per second,\s+p50=([\d\.]+)\s+msec`; the three
      groups are elements 0, 3 and 8. */
  const PATTERN: seq<Elem> := [
    Plus(IsUpper), Lit(":"), Plus(IsSpace), Plus(IsNumChar), Plus(IsSpace), Lit(RPS_TEXT),
    Plus(IsSpace), Lit(P50_TEXT), Plus(IsNumChar), Plus(IsSpace), Lit(MSEC)
  ]

  predicate FitsElem(piece: string, e: Elem)
  {
    match e
    case Plus(p) => Token(piece, p)
    case Lit(t) => piece == t
  }

  /** `ps` is a way to cut a text into pieces, one per element, each matching its element. */
  predicate FitsAll(ps: seq<string>, pat: seq<Elem>)
  {
    |ps| == |pat| && forall k {:trigger FitsElem(ps[k], pat[k])} :: 0 <= k < |pat| ==> FitsElem(ps[k], pat[k])
  }

  function Concat(ps: seq<string>): string
  {
    if ps == [] then [] else ps[0] + Concat(ps[1..])
  }

  /** Every `X+` is followed by a non-empty piece whose first character is outside `X`,
      and the pattern ends with a literal; then the greedy runs are forced. */
  predicate Separated(ps: seq<string>, pat: seq<Elem>)
    requires |ps| == |pat|
  {
    && (|pat| > 0 ==> pat[|pat| - 1].Lit?)
    && forall k :: 0 <= k < |pat| - 1 ==> SeparatedAt(ps, pat, k)
  }

  /** The piece after a run element `k` starts outside the run's class. */
  predicate SeparatedAt(ps: seq<string>, pat: seq<Elem>, k: nat)
    requires |ps| == |pat| && k + 1 < |pat|
  {
    pat[k].Plus? ==> ps[k + 1] != [] && !pat[k].inClass(ps[k + 1][0])
  }

  function Prepend(x: string, r: Option<seq<string>>): Option<seq<string>>
  {
    if r.None? then None else Some([x] + r.value)
  }

  /** Matching `pat` at `i`, element by element, each run as long as it goes: the
      pieces matched, or None. */
  function MatchFrom(s: string, i: nat, pat: seq<Elem>): (r: Option<seq<string>>)
    requires i <= |s|
    ensures r.Some? ==> |r.value| == |pat|
    decreases |pat|
  {
    if |pat| == 0 then Some([])
    else
      match pat[0]
      case Plus(p) =>
        var j := RunEnd(s, i, p);
        if j == i then None else Prepend(s[i..j], MatchFrom(s, j, pat[1..]))
      case Lit(t) =>
        if !At(s, i, t) then None else Prepend(t, MatchFrom(s, i + |t|, pat[1..]))
  }

  /** An attempt to match the pattern at position `i`: its three groups, or None. */
  function MatchAt(s: string, i: nat): Option<Capture>
    requires i <= |s|
  {
    match MatchFrom(s, i, PATTERN)
    case None => None
    case Some(ps) => Some(Capture(ps[0], ps[3], ps[8]))
  }

  /** `regex.search`: the match at the leftmost position where there is one. */
  function SearchFrom(s: string, i: nat): (r: Option<Capture>)
    requires i <= |s|
    // the command group is always a run of capital letters
    ensures r.Some? ==> Token(r.value.command, IsUpper)
    decreases |s| - i
  {
    if MatchAt(s, i).Some? then
      MatchAtSound(s, i);
      MatchAt(s, i)
    else if i == |s| then None
    else SearchFrom(s, i + 1)
  }

  function Search(line: string): Option<Capture>
  {
    SearchFrom(line, 0)
  }

  /** The pattern, with groups `c`, matches the text of `line` that starts at `i`. */
  ghost predicate MatchesAt(line: string, i: nat, c: Capture)
  {
    exists ps :: FitsAll(ps, PATTERN) && At(line, i, Concat(ps)) && c == Capture(ps[0], ps[3], ps[8])
  }

  /** Two adjacent occurrences make one occurrence of the joined text, and back. */
  lemma AtConcat(s: string, i: nat, x: string, y: string)
    ensures At(s, i, x + y) <==> At(s, i, x) && At(s, i + |x|, y)
  {
    if At(s, i, x) && At(s, i + |x|, y) {
      assert s[i..i + |x + y|] == s[i..i + |x|] + s[i + |x|..i + |x| + |y|];
    }
    if At(s, i, x + y) {
      assert s[i..i + |x|] == s[i..i + |x + y|][..|x|];
      assert s[i + |x|..i + |x| + |y|] == s[i..i + |x + y|][|x|..];
    }
  }

  /** A cut occurs at `i` exactly when its first piece does and the rest follows it. */
  lemma AtCons(s: string, i: nat, ps: seq<string>)
    requires |ps| > 0
    ensures At(s, i, Concat(ps)) <==> At(s, i, ps[0]) && At(s, i + |ps[0]|, Concat(ps[1..]))
  {
    assert Concat(ps) == ps[0] + Concat(ps[1..]);
    AtConcat(s, i, ps[0], Concat(ps[1..]));
  }

  /** One step of a successful match: the first piece fits the first element, occurs at
      `i`, and the rest is what matching the rest of the pattern after it returns. */
  lemma SoundStep(s: string, i: nat, pat: seq<Elem>)
    requires i <= |s| && |pat| > 0 && MatchFrom(s, i, pat).Some?
    ensures var ps := MatchFrom(s, i, pat).value;
      && i + |ps[0]| <= |s| && FitsElem(ps[0], pat[0]) && At(s, i, ps[0])
      && MatchFrom(s, i + |ps[0]|, pat[1..]) == Some(ps[1..])
  {
    var ps := MatchFrom(s, i, pat).value;
    match pat[0]
    case Plus(p) =>
      var j := RunEnd(s, i, p);
      RunEndInClass(s, i, p);
      assert ps == [s[i..j]] + MatchFrom(s, j, pat[1..]).value;
    case Lit(t) =>
      assert ps == [t] + MatchFrom(s, i + |t|, pat[1..]).value;
  }

  /** A piece fitting the first element before pieces fitting the rest fit the whole. */
  lemma ConsFits(ps: seq<string>, pat: seq<Elem>)
    requires |ps| == |pat| > 0 && FitsElem(ps[0], pat[0]) && FitsAll(ps[1..], pat[1..])
    ensures FitsAll(ps, pat)
  {
    forall k | 0 <= k < |pat|
      ensures FitsElem(ps[k], pat[k])
    {
      if k > 0 {
        assert ps[k] == ps[1..][k - 1] && pat[k] == pat[1..][k - 1];
      }
    }
  }

  /** What the matcher returns are pieces that fit the pattern and spell out the text at `i`. */
  lemma {:induction false} MatchFromSound(s: string, i: nat, pat: seq<Elem>)
    requires i <= |s| && MatchFrom(s, i, pat).Some?
    ensures FitsAll(MatchFrom(s, i, pat).value, pat)
    ensures At(s, i, Concat(MatchFrom(s, i, pat).value))
    decreases |pat|
  {
    var ps := MatchFrom(s, i, pat).value;
    if |pat| > 0 {
      SoundStep(s, i, pat);
      MatchFromSound(s, i + |ps[0]|, pat[1..]);
      ConsFits(ps, pat);
      AtCons(s, i, ps);
    }
  }

  /** A run of `p`-characters followed by a character outside `p` is exactly the longest run. */
  lemma RunEndExact(s: string, i: nat, w: string, next: string, p: char -> bool)
    requires At(s, i, w + next) && Token(w, p) && next != [] && !p(next[0])
    ensures RunEnd(s, i, p) == i + |w|
  {
    AtConcat(s, i, w, next);
    var j := RunEnd(s, i, p);
    RunEndInClass(s, i, p);
    assert forall k :: i <= k < i + |w| ==> s[k] == s[i..i + |w|][k - i];
    assert s[i + |w|] == s[i + |w|..i + |w| + |next|][0];
  }

  /** The pieces after the first fit, and are separated by, the rest of the pattern. */
  lemma TailFits(ps: seq<string>, pat: seq<Elem>)
    requires |pat| > 0 && FitsAll(ps, pat) && Separated(ps, pat)
    ensures FitsAll(ps[1..], pat[1..]) && Separated(ps[1..], pat[1..])
  {
    var rest := ps[1..];
    forall k | 0 <= k < |pat[1..]|
      ensures FitsElem(rest[k], pat[1..][k])
    {
      assert rest[k] == ps[k + 1] && pat[1..][k] == pat[k + 1];
    }
    forall k | 0 <= k < |pat[1..]| - 1
      ensures SeparatedAt(rest, pat[1..], k)
    {
      assert SeparatedAt(ps, pat, k + 1);
      assert rest[k + 1] == ps[k + 2] && pat[1..][k] == pat[k + 1];
    }
  }

  /** `ps` is a separated cut of the pattern that occurs in `s` at `i`. */
  ghost predicate Cut(s: string, i: nat, pat: seq<Elem>, ps: seq<string>)
  {
    i <= |s| && FitsAll(ps, pat) && Separated(ps, pat) && At(s, i, Concat(ps))
  }

  /** The rest of a cut occurs right after its first piece. */
  lemma CutTail(s: string, i: nat, pat: seq<Elem>, ps: seq<string>)
    requires Cut(s, i, pat, ps) && |pat| > 0
    ensures Cut(s, i + |ps[0]|, pat[1..], ps[1..])
    ensures At(s, i, ps[0])
  {
    TailFits(ps, pat);
    AtCons(s, i, ps);
  }

  /** A run element of a cut ends where the next piece, starting outside its class, begins. */
  lemma RunHead(s: string, i: nat, pat: seq<Elem>, ps: seq<string>)
    requires Cut(s, i, pat, ps) && |pat| > 0 && pat[0].Plus?
    ensures RunEnd(s, i, pat[0].inClass) == i + |ps[0]|
  {
    var p, rest := pat[0].inClass, ps[1..];
    assert FitsElem(ps[0], pat[0]);
    assert SeparatedAt(ps, pat, 0);
    assert ps == [ps[0]] + rest;
    assert Concat(ps) == ps[0] + (rest[0] + Concat(rest[1..]));
    assert ps[0] + (rest[0] + Concat(rest[1..])) == (ps[0] + rest[0]) + Concat(rest[1..]);
    AtConcat(s, i, ps[0] + rest[0], Concat(rest[1..]));
    RunEndExact(s, i, ps[0], rest[0], p);
  }

  /** The first element of a separated cut is matched by exactly its piece, so when the
      rest of the pattern finds the rest of the cut, the whole pattern finds the cut. */
  lemma HeadStep(s: string, i: nat, pat: seq<Elem>, ps: seq<string>)
    requires Cut(s, i, pat, ps) && |pat| > 0
    requires i + |ps[0]| <= |s| && MatchFrom(s, i + |ps[0]|, pat[1..]) == Some(ps[1..])
    ensures MatchFrom(s, i, pat) == Some(ps)
  {
    CutTail(s, i, pat, ps);
    assert FitsElem(ps[0], pat[0]);
    if pat[0].Plus? {
      RunHead(s, i, pat, ps);
      assert s[i..i + |ps[0]|] == ps[0];
    }
    assert [ps[0]] + ps[1..] == ps;
  }

  /** Wherever a separated cut of the text occurs, the matcher finds exactly those pieces. */
  lemma {:induction false} MatchFromComplete(s: string, i: nat, pat: seq<Elem>, ps: seq<string>)
    requires Cut(s, i, pat, ps)
    ensures MatchFrom(s, i, pat) == Some(ps)
    decreases |pat|
  {
    if |pat| > 0 {
      CutTail(s, i, pat, ps);
      MatchFromComplete(s, i + |ps[0]|, pat[1..], ps[1..]);
      HeadStep(s, i, pat, ps);
    }
  }

  /** Any cut of a text into pieces that fit the pattern is separated: every run of the
      pattern is followed by a character its class does not contain. */
  lemma PatternSeparated(ps: seq<string>)
    requires FitsAll(ps, PATTERN)
    ensures Separated(ps, PATTERN)
  {
    forall k | 0 <= k < |PATTERN| - 1
      ensures SeparatedAt(ps, PATTERN, k)
    {
      assert FitsElem(ps[k + 1], PATTERN[k + 1]);
    }
  }

  /** A successful attempt at `i` is a match of the pattern there, with a command of
      capital letters. */
  lemma MatchAtSound(s: string, i: nat)
    requires i <= |s| && MatchAt(s, i).Some?
    ensures MatchesAt(s, i, MatchAt(s, i).value)
    ensures Token(MatchAt(s, i).value.command, IsUpper)
  {
    MatchFromSound(s, i, PATTERN);
    var ps := MatchFrom(s, i, PATTERN).value;
    assert FitsElem(ps[0], PATTERN[0]);
  }

  /** Wherever the pattern occurs, the attempt at its start finds exactly its groups. */
  lemma MatchAtComplete(s: string, i: nat, ps: seq<string>)
    requires i <= |s| && FitsAll(ps, PATTERN) && At(s, i, Concat(ps))
    ensures MatchAt(s, i) == Some(Capture(ps[0], ps[3], ps[8]))
  {
    PatternSeparated(ps);
    MatchFromComplete(s, i, PATTERN, ps);
  }

  /** Searching from `i` finds a match at some position from `i` on, and there is no match
      at any earlier of those positions. */
  lemma {:induction false} SearchFromSound(s: string, i: nat)
    requires i <= |s| && SearchFrom(s, i).Some?
    ensures exists j :: i <= j <= |s| && MatchAt(s, j) == SearchFrom(s, i) && forall k :: i <= k < j ==> MatchAt(s, k).None?
    decreases |s| - i
  {
    if MatchAt(s, i).None? {
      SearchFromSound(s, i + 1);
      var j :| i + 1 <= j <= |s| && MatchAt(s, j) == SearchFrom(s, i + 1) && forall k :: i + 1 <= k < j ==> MatchAt(s, k).None?;
      assert forall k :: i <= k < j ==> MatchAt(s, k).None?;
    }
  }

  /** Searching from `i` succeeds whenever some position from `i` on matches. */
  lemma {:induction false} SearchFromComplete(s: string, i: nat, j: nat)
    requires i <= j <= |s| && MatchAt(s, j).Some?
    ensures SearchFrom(s, i).Some?
    decreases j - i
  {
    if MatchAt(s, i).None? {
      SearchFromComplete(s, i + 1, j);
    }
  }

  /** A line yields a capture exactly when the pattern occurs in it; the capture is the
      groups of its leftmost occurrence, and its command is in capital letters. */
  lemma SearchIffOccurs(line: string)
    ensures Search(line).Some? ==>
      && (exists i :: 0 <= i <= |line| && MatchesAt(line, i, Search(line).value))
      && Token(Search(line).value.command, IsUpper)
    ensures (exists i, c :: 0 <= i <= |line| && MatchesAt(line, i, c)) ==> Search(line).Some?
  {
    if Search(line).Some? {
      SearchFromSound(line, 0);
      var j :| 0 <= j <= |line| && MatchAt(line, j) == Search(line) && forall k :: 0 <= k < j ==> MatchAt(line, k).None?;
      MatchAtSound(line, j);
    }
    if exists i, c :: 0 <= i <= |line| && MatchesAt(line, i, c) {
      var i, c :| 0 <= i <= |line| && MatchesAt(line, i, c);
      var ps :| FitsAll(ps, PATTERN) && At(line, i, Concat(ps)) && c == Capture(ps[0], ps[3], ps[8]);
      MatchAtComplete(line, i, ps);
      SearchFromComplete(line, 0, i);
    }
  }

  // ---------------------------------------------------------------------------
  // Lines
  // ---------------------------------------------------------------------------

  /** The position of the first line feed. */
  function NewlineIndex(s: string): (i: nat)
    requires '\n' in s
    ensures i < |s| && s[i] == '\n' && '\n' !in s[..i]
  {
    if s[0] == '\n' then 0
    else
      var i := 1 + NewlineIndex(s[1..]);
      assert s[..i] == [s[0]] + s[1..][..i - 1];
      i
  }

  /** The output split at each line feed. */
  function Lines(s: string): (ls: seq<string>)
    ensures |ls| > 0
    ensures forall k :: 0 <= k < |ls| ==> '\n' !in ls[k]
    decreases |s|
  {
    if '\n' !in s then [s]
    else
      var i := NewlineIndex(s);
      [s[..i]] + Lines(s[i + 1..])
  }

  function JoinLines(ls: seq<string>): string
    requires |ls| > 0
  {
    if |ls| == 1 then ls[0] else ls[0] + "\n" + JoinLines(ls[1..])
  }

  /** Splitting loses nothing: joining the lines with line feeds gives the output back. */
  lemma {:induction false} LinesRoundTrip(s: string)
    ensures JoinLines(Lines(s)) == s
    decreases |s|
  {
    if '\n' in s {
      var i := NewlineIndex(s);
      LinesRoundTrip(s[i + 1..]);
      assert Lines(s)[1..] == Lines(s[i + 1..]);
      assert s == s[..i] + "\n" + s[i + 1..];
    }
  }

  // ---------------------------------------------------------------------------
  // Rows
  // ---------------------------------------------------------------------------

  type CsvRow = seq<string>

  const HEADER: CsvRow := ["Timestamp", "Git Hash", "Note", "Test Name", "Command", "RPS", "Latency (p50)"]

  /** The row a line contributes: none, or [time, hash, label, test, command, rps, p50]. */
  function RowOf(line: string, timestamp: string, hash: string, note: string, testName: string): seq<CsvRow>
  {
    match Search(line)
    case None => []
    case Some(c) => [[timestamp, hash, note, testName, c.command, c.rps, c.p50]]
  }

  /** The rows of all matching lines, in line order. */
  function Scraped(lines: seq<string>, timestamp: string, hash: string, note: string, testName: string): seq<CsvRow>
  {
    if lines == [] then []
    else Scraped(lines[..|lines| - 1], timestamp, hash, note, testName) + RowOf(lines[|lines| - 1], timestamp, hash, note, testName)
  }

  /** A scraped row: seven fields, the first four those of the call, the last three the
      groups of a match in one of `lines`. */
  ghost predicate RowFrom(r: CsvRow, lines: seq<string>, timestamp: string, hash: string, note: string, testName: string)
  {
    && |r| == 7 && r[..4] == [timestamp, hash, note, testName]
    && exists l :: l in lines && Search(l) == Some(Capture(r[4], r[5], r[6]))
  }

  /** The row of one line has the row shape, and it is never the header, whose command
      column is not in capital letters. */
  lemma RowOfShape(line: string, timestamp: string, hash: string, note: string, testName: string)
    ensures forall r :: r in RowOf(line, timestamp, hash, note, testName) ==>
      RowFrom(r, [line], timestamp, hash, note, testName) && r != HEADER
  {
    if Search(line).Some? {
      var r := RowOf(line, timestamp, hash, note, testName)[0];
      assert line in [line];
      SearchIffOccurs(line);
      assert !IsUpper(HEADER[4][1]);
      assert r[4] == Search(line).value.command;
    }
  }

  /** Every row has the row shape and none is the header; there is at most one per line. */
  lemma {:induction false} ScrapedShape(lines: seq<string>, timestamp: string, hash: string, note: string, testName: string)
    ensures forall r :: r in Scraped(lines, timestamp, hash, note, testName) ==>
      RowFrom(r, lines, timestamp, hash, note, testName) && r != HEADER
    ensures |Scraped(lines, timestamp, hash, note, testName)| <= |lines|
  {
    if lines != [] {
      var init := lines[..|lines| - 1];
      var last := lines[|lines| - 1];
      ScrapedShape(init, timestamp, hash, note, testName);
      RowOfShape(last, timestamp, hash, note, testName);
      forall r | r in Scraped(lines, timestamp, hash, note, testName)
        ensures RowFrom(r, lines, timestamp, hash, note, testName) && r != HEADER
      {
        if r in Scraped(init, timestamp, hash, note, testName) {
          var l :| l in init && Search(l) == Some(Capture(r[4], r[5], r[6]));
          assert l in lines;
        } else {
          assert r in RowOf(last, timestamp, hash, note, testName);
          assert last in lines;
        }
      }
    }
  }

  /** The rows of two stretches of output follow each other: one row per matching line,
      in line order. */
  lemma {:induction false} ScrapedAppend(a: seq<string>, b: seq<string>, timestamp: string, hash: string, note: string, testName: string)
    ensures Scraped(a + b, timestamp, hash, note, testName)
         == Scraped(a, timestamp, hash, note, testName) + Scraped(b, timestamp, hash, note, testName)
    decreases |b|
  {
    if b != [] {
      var b' := b[..|b| - 1];
      assert (a + b)[..|a + b| - 1] == a + b';
      ScrapedAppend(a, b', timestamp, hash, note, testName);
    } else {
      assert a + b == a;
    }
  }

  /** The line loop of `save_to_csv`: the rows of the matching lines and whether any matched. */
  method ScanOutput(output: string, timestamp: string, hash: string, note: string, testName: string)
    returns (rows: seq<CsvRow>, foundAny: bool)
    ensures rows == Scraped(Lines(output), timestamp, hash, note, testName)
    ensures foundAny <==> rows != []
  {
    var lines := Lines(output);
    rows := [];
    foundAny := false;
    var i := 0;
    while i < |lines|
      invariant i <= |lines|
      invariant rows == Scraped(lines[..i], timestamp, hash, note, testName)
      invariant foundAny <==> rows != []
    {
      assert lines[..i + 1][..i] == lines[..i];
      var m := Search(lines[i]);
      if m.Some? {
        foundAny := true;
        rows := rows + [[timestamp, hash, note, testName, m.value.command, m.value.rps, m.value.p50]];
      }
      i := i + 1;
    }
    assert lines[..|lines|] == lines;
  }

  // ---------------------------------------------------------------------------
  // The CSV log
  // ---------------------------------------------------------------------------

  /** The log's state: whether the file exists, and its rows. */
  datatype CsvState = CsvState(present: bool, rows: seq<CsvRow>)

  /** Appending a batch: nothing when it is empty; otherwise the header first if the file
      did not exist yet, then the batch. */
  function SaveEffect(st: CsvState, batch: seq<CsvRow>): (st': CsvState)
    ensures batch == [] ==> st' == st
    ensures batch != [] ==> st'.present
    // the header goes in exactly when the file is new, and nothing else besides the batch
    ensures batch != [] ==> |st'.rows| == |st.rows| + (if st.present then 0 else 1) + |batch|
    ensures batch != [] && !st.present ==> st'.rows[|st.rows|] == HEADER
    ensures |st.rows| + |batch| <= |st'.rows|
    ensures st'.rows[..|st.rows|] == st.rows
    ensures st'.rows[|st'.rows| - |batch|..] == batch
  {
    if batch == [] then st
    else CsvState(true, st.rows + (if st.present then [] else [HEADER]) + batch)
  }

  /** The log a sequence of saves leaves behind. */
  function SaveAll(st: CsvState, batches: seq<seq<CsvRow>>): CsvState
  {
    if batches == [] then st else SaveEffect(SaveAll(st, batches[..|batches| - 1]), batches[|batches| - 1])
  }

  /** The log exists exactly when it has rows, and then its only header is its first row. */
  predicate HeaderFirst(st: CsvState)
  {
    && (st.present <==> st.rows != [])
    && (st.rows != [] ==> st.rows[0] == HEADER && HEADER !in st.rows[1..])
  }

  /** One save of rows without a header row keeps the header first and single. */
  lemma SaveKeepsHeaderFirst(st: CsvState, batch: seq<CsvRow>)
    requires HeaderFirst(st) && HEADER !in batch
    ensures HeaderFirst(SaveEffect(st, batch))
  {
    if batch != [] {
      var rows := SaveEffect(st, batch).rows;
      if st.present {
        assert rows[1..] == st.rows[1..] + batch;
      } else {
        assert rows == [HEADER] + batch;
      }
    }
  }

  /** Starting from no file, any sequence of saves of scraped rows leaves a log whose only
      header is its first row. */
  lemma {:induction false} HeaderOnce(batches: seq<seq<CsvRow>>)
    requires forall k :: 0 <= k < |batches| ==> HEADER !in batches[k]
    ensures HeaderFirst(SaveAll(CsvState(false, []), batches))
  {
    if batches != [] {
      HeaderOnce(batches[..|batches| - 1]);
      SaveKeepsHeaderFirst(SaveAll(CsvState(false, []), batches[..|batches| - 1]), batches[|batches| - 1]);
    }
  }

  /** The results file `benchmarks.csv`. */
  class CsvFile {
    var present: bool
    var rows: seq<CsvRow>

    constructor (present: bool, rows: seq<CsvRow>)
      ensures this.present == present && this.rows == rows
    {
      this.present := present;
      this.rows := rows;
    }

    function State(): CsvState
      reads this
    {
      CsvState(present, rows)
    }

    /** Opening for append and writing rows: the header first when the file is new. */
    method Append(batch: seq<CsvRow>)
      requires batch != []
      modifies this
      ensures State() == SaveEffect(old(State()), batch)
    {
      if !present {
        rows := rows + [HEADER];
      }
      rows := rows + batch;
      present := true;
    }
  }

  /** The hash column: the commit hash, or "unknown" when it cannot be read. */
  function HashOrUnknown(gitHash: Option<string>): string
  {
    if gitHash.Some? then gitHash.value else "unknown"
  }

  /** `save_to_csv`: appends the rows scraped from `output`, or leaves the file alone
      when no line matches. The commit hash and the timestamp are inputs. */
  method SaveToCsv(file: CsvFile, testName: string, output: string, note: string, gitHash: Option<string>, timestamp: string)
    returns (saved: bool)
    modifies file
    ensures saved <==> Scraped(Lines(output), timestamp, HashOrUnknown(gitHash), note, testName) != []
    ensures file.State() == SaveEffect(old(file.State()), Scraped(Lines(output), timestamp, HashOrUnknown(gitHash), note, testName))
  {
    var hash := HashOrUnknown(gitHash);
    var rows, foundAny := ScanOutput(output, timestamp, hash, note, testName);
    if !foundAny {
      return false;
    }
    file.Append(rows);
    saved := true;
  }

  // ---------------------------------------------------------------------------
  // Labels
  // ---------------------------------------------------------------------------

  function StripLeft(s: string): (r: string)
    ensures r == [] || !IsSpace(r[0])
    ensures |r| <= |s| && r == s[|s| - |r|..]
    ensures AllOf(s[..|s| - |r|], IsSpace)
  {
    if s != [] && IsSpace(s[0]) then
      var r := StripLeft(s[1..]);
      assert s[1..][|s| - 1 - |r|..] == s[|s| - |r|..];
      assert forall k :: 0 < k < |s| - |r| ==> s[k] == s[1..][..|s| - 1 - |r|][k - 1];
      r
    else s
  }

  function StripRight(s: string): (r: string)
    ensures r == [] || !IsSpace(r[|r| - 1])
    ensures |r| <= |s| && r == s[..|r|]
    ensures AllOf(s[|r|..], IsSpace)
  {
    if s != [] && IsSpace(s[|s| - 1]) then
      var r := StripRight(s[..|s| - 1]);
      assert s[..|s| - 1][..|r|] == s[..|r|];
      assert forall k :: |r| <= k < |s| - 1 ==> s[k] == s[..|s| - 1][|r|..][k - |r|];
      r
    else s
  }

  /** `str.strip()` */
  function Strip(s: string): string
  {
    StripRight(StripLeft(s))
  }

  /** A typed label is empty exactly when it was blank: only whitespace, or nothing. */
  lemma StripEmptyIffBlank(s: string)
    ensures Strip(s) == [] <==> AllOf(s, IsSpace)
    ensures Strip(s) != [] ==> !IsSpace(Strip(s)[0]) && !IsSpace(Strip(s)[|Strip(s)| - 1])
  {
    var l := StripLeft(s);
    if Strip(s) != [] {
      assert Strip(s) == l[..|Strip(s)|];
      assert !IsSpace(s[|s| - |l|]);
    } else {
      assert l == [];
    }
  }

  // ---------------------------------------------------------------------------
  // Suites
  // ---------------------------------------------------------------------------

  datatype Suite = Suite(name: string, desc: string, cmd: seq<string>)

  /** The preset catalog, in its declaration order. */
  const TEST_SUITES: seq<(string, Suite)> := [
    ("1", Suite("Quick Sanity Check", "Simple PING to ensure server is alive (No Load)",
                ["redis-benchmark", "-t", "ping", "-n", "1000", "-q"])),
    ("2", Suite("Regular Load (Baseline)", "Standard 50 clients, no pipelining. Good for baseline latency.",
                ["redis-benchmark", "-t", "set,get", "-n", "200000", "-q"])),
    ("3", Suite("High Concurrency & Throughput (Mixed)", "2000 Clients, Pipeline 32, 1 Million Requests.",
                ["redis-benchmark", "-t", "set,get,lpush,lpop", "-c", "2000", "-P", "32",
                 "-n", "1000000", "-r", "100000", "-q"])),
    ("4", Suite("Heavy Payload Saturation (4KB)", "High Concurrency + 4KB Payloads. Tests bandwidth.",
                ["redis-benchmark", "-t", "set,get", "-c", "1000", "-P", "16", "-d", "4096",
                 "-n", "500000", "-r", "100000", "-q"]))
  ]

  /** `dict.get`: the suite of the first entry with the key, if any. */
  function Lookup(suites: seq<(string, Suite)>, key: string): (r: Option<Suite>)
    ensures r.Some? <==> exists k :: 0 <= k < |suites| && suites[k].0 == key
    // the suite returned is that of the first entry with the key
    ensures r.Some? ==> exists k :: 0 <= k < |suites| && suites[k] == (key, r.value) && forall j :: 0 <= j < k ==> suites[j].0 != key
  {
    if suites == [] then None
    else if suites[0].0 == key then Some(suites[0].1)
    else
      var r := Lookup(suites[1..], key);
      assert forall k :: 1 <= k < |suites| ==> suites[k] == suites[1..][k - 1];
      r
  }

  function KeysOf(suites: seq<(string, Suite)>): (ks: seq<string>)
    ensures |ks| == |suites| && forall k :: 0 <= k < |suites| ==> ks[k] == suites[k].0
  {
    seq(|suites|, k requires 0 <= k < |suites| => suites[k].0)
  }

  /** Python's string order: code point by code point, a proper prefix first. */
  predicate LexLe(a: string, b: string)
    decreases |a|
  {
    a == [] || (b != [] && (a[0] < b[0] || (a[0] == b[0] && LexLe(a[1..], b[1..]))))
  }

  lemma {:induction false} LexLeTotal(a: string, b: string)
    ensures LexLe(a, b) || LexLe(b, a)
    decreases |a|
  {
    if a != [] && b != [] && a[0] == b[0] {
      LexLeTotal(a[1..], b[1..]);
    }
  }

  lemma {:induction false} LexLeTrans(a: string, b: string, c: string)
    requires LexLe(a, b) && LexLe(b, c)
    ensures LexLe(a, c)
    decreases |a|
  {
    if a != [] && a[0] == b[0] && b[0] == c[0] {
      LexLeTrans(a[1..], b[1..], c[1..]);
    }
  }

  predicate Sorted(xs: seq<string>)
  {
    forall i, j {:trigger LexLe(xs[i], xs[j])} :: 0 <= i < j < |xs| ==> LexLe(xs[i], xs[j])
  }

  function Insert(x: string, xs: seq<string>): (r: seq<string>)
    ensures multiset(r) == multiset(xs) + multiset{x}
    ensures |r| == |xs| + 1
  {
    if xs == [] || LexLe(x, xs[0]) then [x] + xs
    else
      assert xs == [xs[0]] + xs[1..];
      [xs[0]] + Insert(x, xs[1..])
  }

  /** `sorted`: the keys in ascending string order. */
  function Sort(xs: seq<string>): (r: seq<string>)
    ensures multiset(r) == multiset(xs)
  {
    if xs == [] then []
    else
      assert xs == [xs[0]] + xs[1..];
      Insert(xs[0], Sort(xs[1..]))
  }

  /** Inserting an element that goes after the head of a sorted list leaves every
      element after the head above it. */
  lemma InsertAbove(x: string, xs: seq<string>)
    requires Sorted(xs) && xs != [] && LexLe(xs[0], x)
    ensures forall y :: y in Insert(x, xs[1..]) ==> LexLe(xs[0], y)
  {
    forall y | y in Insert(x, xs[1..])
      ensures LexLe(xs[0], y)
    {
      assert y in multiset(Insert(x, xs[1..]));
      assert y in multiset(xs[1..]) + multiset{x};
      if y != x {
        assert y in xs[1..];
        var k :| 0 <= k < |xs[1..]| && xs[1..][k] == y;
        assert xs[k + 1] == y;
      }
    }
  }

  /** Inserting at the head of a sorted list, before its first element, keeps it sorted. */
  lemma InsertFront(x: string, xs: seq<string>)
    requires Sorted(xs) && xs != [] && LexLe(x, xs[0])
    ensures Sorted([x] + xs)
  {
    var r := [x] + xs;
    forall i, j | 0 <= i < j < |r|
      ensures LexLe(r[i], r[j])
    {
      if i == 0 && j > 1 {
        LexLeTrans(x, xs[0], xs[j - 1]);
      }
    }
  }

  /** The head of a sorted list before a sorted insertion into its tail, which stays
      above the head, is sorted. */
  lemma InsertBehind(x: string, xs: seq<string>)
    requires Sorted(xs) && xs != [] && LexLe(xs[0], x) && Sorted(Insert(x, xs[1..]))
    ensures Sorted([xs[0]] + Insert(x, xs[1..]))
  {
    var tail := Insert(x, xs[1..]);
    var r := [xs[0]] + tail;
    InsertAbove(x, xs);
    forall i, j | 0 <= i < j < |r|
      ensures LexLe(r[i], r[j])
    {
      assert r[j] == tail[j - 1] && tail[j - 1] in tail;
      if i > 0 {
        assert r[i] == tail[i - 1];
      }
    }
  }

  lemma {:induction false} InsertSorted(x: string, xs: seq<string>)
    requires Sorted(xs)
    ensures Sorted(Insert(x, xs))
  {
    if xs != [] && !LexLe(x, xs[0]) {
      LexLeTotal(x, xs[0]);
      InsertSorted(x, xs[1..]);
      InsertBehind(x, xs);
    } else if xs != [] {
      InsertFront(x, xs);
    }
  }

  /** A batch run's order is sorted and holds each key as often as the catalog does. */
  lemma {:induction false} SortSorted(xs: seq<string>)
    ensures Sorted(Sort(xs))
    ensures multiset(Sort(xs)) == multiset(xs)
  {
    if xs != [] {
      SortSorted(xs[1..]);
      InsertSorted(xs[0], Sort(xs[1..]));
    }
  }

  /** Sorting keys that are already in order keeps them as they are. */
  lemma {:induction false} SortKeepsSorted(xs: seq<string>)
    requires Sorted(xs)
    ensures Sort(xs) == xs
  {
    if xs != [] {
      assert Sorted(xs[1..]) by {
        forall i, j | 0 <= i < j < |xs[1..]|
          ensures LexLe(xs[1..][i], xs[1..][j])
        {
          assert xs[1..][i] == xs[i + 1] && xs[1..][j] == xs[j + 1];
        }
      }
      SortKeepsSorted(xs[1..]);
      if xs[1..] != [] {
        assert LexLe(xs[0], xs[1]);
      }
    }
  }

  /** Every key of the batch order names a suite of the catalog. */
  lemma SortedKeyKnown(suites: seq<(string, Suite)>, i: nat)
    requires i < |Sort(KeysOf(suites))|
    ensures Lookup(suites, Sort(KeysOf(suites))[i]).Some?
  {
    var key := Sort(KeysOf(suites))[i];
    assert key in multiset(Sort(KeysOf(suites)));
    assert key in KeysOf(suites);
    var k :| 0 <= k < |KeysOf(suites)| && KeysOf(suites)[k] == key;
    assert suites[k].0 == key;
  }

  /** The batch order of the catalog is 1, 2, 3, 4. */
  lemma SuiteOrder()
    ensures Sort(KeysOf(TEST_SUITES)) == ["1", "2", "3", "4"]
  {
    var ks := KeysOf(TEST_SUITES);
    assert ks == ["1", "2", "3", "4"];
    assert Sorted(ks) by {
      assert LexLe("1", "2") && LexLe("1", "3") && LexLe("1", "4");
      assert LexLe("2", "3") && LexLe("2", "4") && LexLe("3", "4");
    }
    SortKeepsSorted(ks);
  }

  // ---------------------------------------------------------------------------
  // Running suites
  // ---------------------------------------------------------------------------

  /** What one `execute_suite` call did: nothing for an unknown key, or ran the suite
      under a label and saved or skipped. */
  datatype SuiteRun = NoSuite | Ran(key: string, note: string, saved: bool)

  /** The label results are saved under: the batch label when one is given, otherwise
      what the operator typed, stripped. */
  function Label(batchLabel: Option<string>, typed: string): string
  {
    if batchLabel.Some? then batchLabel.value else Strip(typed)
  }

  /** The log after running the suite with `key`: saved to only under a non-empty label. */
  function SuiteEffect(suites: seq<(string, Suite)>, st: CsvState, key: string, note: string, stdout: string, hash: string, timestamp: string): CsvState
  {
    match Lookup(suites, key)
    case None => st
    case Some(suite) =>
      if note == "" then st
      else SaveEffect(st, Scraped(Lines(stdout), timestamp, hash, note, suite.name))
  }

  /** `execute_suite`: an unknown key returns at once; otherwise the suite's output
      (`stdout`, produced by the external load tool) is saved under the label when the
      label is not empty. */
  method ExecuteSuite(file: CsvFile, suites: seq<(string, Suite)>, key: string, batchLabel: Option<string>, typed: string,
                      stdout: string, gitHash: Option<string>, timestamp: string)
    returns (run: SuiteRun)
    modifies file
    ensures Lookup(suites, key).None? ==> run == NoSuite
    ensures Lookup(suites, key).Some? ==> run.Ran? && run.key == key && run.note == Label(batchLabel, typed)
    ensures run.Ran? ==>
      (run.saved <==> (run.note != "" && Scraped(Lines(stdout), timestamp, HashOrUnknown(gitHash), run.note, Lookup(suites, key).value.name) != []))
    ensures file.State() == SuiteEffect(suites, old(file.State()), key, Label(batchLabel, typed), stdout, HashOrUnknown(gitHash), timestamp)
  {
    var suite := Lookup(suites, key);
    if suite.None? {
      return NoSuite;
    }
    var note := if batchLabel.Some? then batchLabel.value else Strip(typed);
    var saved := false;
    if note != "" {
      saved := SaveToCsv(file, suite.value.name, stdout, note, gitHash, timestamp);
    }
    run := Ran(key, note, saved);
  }

  /** The log after a batch run over `keys` under one label. */
  function BatchEffect(suites: seq<(string, Suite)>, st: CsvState, keys: seq<string>, note: string, stdoutOf: string -> string, hash: string, timestamp: string): CsvState
  {
    if keys == [] then st
    else
      var k := keys[|keys| - 1];
      SuiteEffect(suites, BatchEffect(suites, st, keys[..|keys| - 1], note, stdoutOf, hash, timestamp), k, note, stdoutOf(k), hash, timestamp)
  }

  /** A batch run under a blank label saves nothing. */
  lemma {:induction false} BlankBatchSavesNothing(suites: seq<(string, Suite)>, st: CsvState, keys: seq<string>, stdoutOf: string -> string, hash: string, timestamp: string)
    ensures BatchEffect(suites, st, keys, "", stdoutOf, hash, timestamp) == st
  {
    if keys != [] {
      BlankBatchSavesNothing(suites, st, keys[..|keys| - 1], stdoutOf, hash, timestamp);
    }
  }

  lemma BatchStep(suites: seq<(string, Suite)>, st: CsvState, keys: seq<string>, i: nat, note: string,
                  stdoutOf: string -> string, hash: string, timestamp: string)
    requires i < |keys|
    ensures BatchEffect(suites, st, keys[..i + 1], note, stdoutOf, hash, timestamp)
      == SuiteEffect(suites, BatchEffect(suites, st, keys[..i], note, stdoutOf, hash, timestamp), keys[i], note, stdoutOf(keys[i]), hash, timestamp)
  {
    assert keys[..i + 1][..i] == keys[..i];
  }

  /** The runs so far are those of the first keys, each under `note`. */
  predicate RanInOrder(runs: seq<SuiteRun>, keys: seq<string>, note: string)
  {
    |runs| <= |keys| && forall j :: 0 <= j < |runs| ==> runs[j].Ran? && runs[j].key == keys[j] && runs[j].note == note
  }

  lemma RanAppend(runs: seq<SuiteRun>, run: SuiteRun, keys: seq<string>, note: string)
    requires RanInOrder(runs, keys, note) && |runs| < |keys|
    requires run.Ran? && run.key == keys[|runs|] && run.note == note
    ensures RanInOrder(runs + [run], keys, note)
  {
  }

  /** Runs the suites with `keys`, in that order, all under one label. */
  method RunKeys(file: CsvFile, suites: seq<(string, Suite)>, keys: seq<string>, note: string,
                 stdoutOf: string -> string, gitHash: Option<string>, timestamp: string)
    returns (runs: seq<SuiteRun>)
    requires forall k :: 0 <= k < |keys| ==> Lookup(suites, keys[k]).Some?
    modifies file
    ensures |runs| == |keys|
    ensures forall j :: 0 <= j < |runs| ==> runs[j].Ran? && runs[j].key == keys[j] && runs[j].note == note
    ensures file.State() == BatchEffect(suites, old(file.State()), keys, note, stdoutOf, HashOrUnknown(gitHash), timestamp)
  {
    ghost var st0 := file.State();
    var hash := HashOrUnknown(gitHash);
    runs := [];
    var i := 0;
    while i < |keys|
      invariant i <= |keys|
      invariant |runs| == i
      invariant RanInOrder(runs, keys, note)
      invariant file.State() == BatchEffect(suites, st0, keys[..i], note, stdoutOf, hash, timestamp)
    {
      BatchStep(suites, st0, keys, i, note, stdoutOf, hash, timestamp);
      var run := ExecuteSuite(file, suites, keys[i], Some(note), "", stdoutOf(keys[i]), gitHash, timestamp);
      RanAppend(runs, run, keys, note);
      runs := runs + [run];
      i := i + 1;
    }
    assert keys[..|keys|] == keys;
  }

  /** `run_all_tests`: every suite in ascending key order, all under the one label typed
      at the start (stripped). `stdoutOf` is the load tool's output for each suite. */
  method RunAllTests(file: CsvFile, suites: seq<(string, Suite)>, typed: string, stdoutOf: string -> string, gitHash: Option<string>, timestamp: string)
    returns (runs: seq<SuiteRun>)
    modifies file
    ensures var keys := Sort(KeysOf(suites));
      && |runs| == |keys|
      && (forall i :: 0 <= i < |runs| ==> runs[i].Ran? && runs[i].key == keys[i] && runs[i].note == Strip(typed))
      && file.State() == BatchEffect(suites, old(file.State()), keys, Strip(typed), stdoutOf, HashOrUnknown(gitHash), timestamp)
  {
    var keys := Sort(KeysOf(suites));
    forall k | 0 <= k < |keys|
      ensures Lookup(suites, keys[k]).Some?
    {
      SortedKeyKnown(suites, k);
    }
    runs := RunKeys(file, suites, keys, Strip(typed), stdoutOf, gitHash, timestamp);
  }
}
