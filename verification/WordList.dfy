/** internal/idgen/wordlist.go: the embedded word list and its validating parser. */
module WordList {
  import opened Prelude

  const WORDLIST_SIZE := 1296

  // One constructor per panic message of the parser; line numbers count from 1.
  datatype ParseError =
    | LineCount(got: nat)
    | MissingTab(line: nat)
    | EmptyWord(line: nat)
    | InvalidWord(line: nat)
    | HexPrefix(line: nat)
    | Duplicate(line: nat)

  predicate IsWordChar(c: char) {
    'a' <= c <= 'z' || c == '-'
  }

  predicate AllWordChars(w: string) {
    forall i | 0 <= i < |w| :: IsWordChar(w[i])
  }

  predicate HasHexPrefix(w: string) {
    "hex-" <= w
  }

  predicate IsEntry(w: string) {
    w != "" && AllWordChars(w) && !HasHexPrefix(w)
  }

  /** What the allocator relies on. */
  predicate ValidWords(ws: seq<string>) {
    && |ws| == WORDLIST_SIZE
    && (forall i | 0 <= i < |ws| :: IsEntry(ws[i]))
    && Distinct(ws)
  }

  // ----- the library calls the parser makes

  /** strings.ReplaceAll(s, "\r\n", "\n") */
  function StripCr(s: string): string {
    if s == "" then ""
    else if |s| >= 2 && s[0] == '\r' && s[1] == '\n' then "\n" + StripCr(s[2..])
    else [s[0]] + StripCr(s[1..])
  }

  /** strings.TrimRight(s, "\n") */
  function TrimNewlines(s: string): string {
    if s != "" && s[|s| - 1] == '\n' then TrimNewlines(s[..|s| - 1]) else s
  }

  /** strings.Split(s, "\n") */
  function SplitLines(s: string): (lines: seq<string>)
    ensures |lines| >= 1
  {
    if s == "" then [""]
    else
      var rest := SplitLines(s[1..]);
      if s[0] == '\n' then [""] + rest else [[s[0]] + rest[0]] + rest[1..]
  }

  /** The part after the first tab: strings.Cut(line, "\t") */
  function CutTab(line: string): Option<string> {
    if line == "" then None
    else if line[0] == '\t' then Some(line[1..])
    else CutTab(line[1..])
  }

  function Lines(raw: string): seq<string> {
    SplitLines(TrimNewlines(StripCr(raw)))
  }

  // ----- specification of the checks

  function LineFault(lines: seq<string>, i: nat): Option<ParseError>
    requires i < |lines|
  {
    match CutTab(lines[i])
    case None => Some(MissingTab(i + 1))
    case Some(w) =>
      if w == "" then Some(EmptyWord(i + 1))
      else if !AllWordChars(w) then Some(InvalidWord(i + 1))
      else if HasHexPrefix(w) then Some(HexPrefix(i + 1))
      else if exists j | 0 <= j < i :: CutTab(lines[j]) == Some(w) then Some(Duplicate(i + 1))
      else None
  }

  /** ws is the word column of lines. */
  predicate Column(lines: seq<string>, ws: seq<string>) {
    |lines| == |ws| && forall i | 0 <= i < |ws| :: CutTab(lines[i]) == Some(ws[i])
  }

  /** The first fault in line order decides the outcome. */
  predicate Outcome(lines: seq<string>, r: Result<seq<string>, ParseError>) {
    if |lines| != WORDLIST_SIZE then r == Err(LineCount(|lines|))
    else if r.Ok? then (forall i | 0 <= i < |lines| :: LineFault(lines, i) == None) && Column(lines, r.value)
    else exists i | 0 <= i < |lines| ::
      LineFault(lines, i) == Some(r.error) && forall j | 0 <= j < i :: LineFault(lines, j) == None
  }

  // ----- the code

  method IsValidWord(w: string) returns (ok: bool)
    ensures ok == AllWordChars(w)
  {
    for i := 0 to |w|
      invariant forall k | 0 <= k < i :: IsWordChar(w[k])
    {
      if !('a' <= w[i] <= 'z') && w[i] != '-' {
        return false;
      }
    }
    return true;
  }

  method ParseAndValidate(raw: string) returns (r: Result<seq<string>, ParseError>)
    ensures Outcome(Lines(raw), r)
  {
    var lines := Lines(raw);
    if |lines| != WORDLIST_SIZE {
      return Err(LineCount(|lines|));
    }
    var out: seq<string> := [];
    var seen: set<string> := {};
    for i := 0 to |lines|
      invariant |out| == i
      invariant forall k | 0 <= k < i :: CutTab(lines[k]) == Some(out[k]) && LineFault(lines, k) == None
      invariant forall w :: w in seen <==> w in out
    {
      var cut := CutTab(lines[i]);
      if cut == None {
        assert LineFault(lines, i) == Some(MissingTab(i + 1));
        return Err(MissingTab(i + 1));
      }
      var word := cut.value;
      if word == "" {
        assert LineFault(lines, i) == Some(EmptyWord(i + 1));
        return Err(EmptyWord(i + 1));
      }
      var valid := IsValidWord(word);
      if !valid {
        assert LineFault(lines, i) == Some(InvalidWord(i + 1));
        return Err(InvalidWord(i + 1));
      }
      if HasHexPrefix(word) {
        assert LineFault(lines, i) == Some(HexPrefix(i + 1));
        return Err(HexPrefix(i + 1));
      }
      if word in seen {
        assert LineFault(lines, i) == Some(Duplicate(i + 1));
        return Err(Duplicate(i + 1));
      }
      seen := seen + {word};
      out := out + [word];
    }
    return Ok(out);
  }

  // ----- what an accepted text is

  /** Acceptance, stated without the order of the checks: the word column is a valid word list. */
  lemma {:induction false} AcceptedIffValidColumn(lines: seq<string>, ws: seq<string>)
    ensures Outcome(lines, Ok(ws)) <==> Column(lines, ws) && ValidWords(ws)
  {
    if Outcome(lines, Ok(ws)) {
      forall i | 0 <= i < |ws| ensures IsEntry(ws[i]) {
        assert LineFault(lines, i) == None;
      }
      forall i, j | 0 <= i < j < |ws| ensures ws[i] != ws[j] {
        assert LineFault(lines, j) == None && CutTab(lines[i]) == Some(ws[i]);
      }
    }
    if Column(lines, ws) && ValidWords(ws) {
      forall i | 0 <= i < |lines| ensures LineFault(lines, i) == None {
        assert IsEntry(ws[i]);
      }
    }
  }

  /** The outcome, success or first error, is determined by the lines. */
  lemma OutcomeUnique(lines: seq<string>, r: Result<seq<string>, ParseError>, q: Result<seq<string>, ParseError>)
    requires Outcome(lines, r) && Outcome(lines, q)
    ensures r == q
  {
    if |lines| == WORDLIST_SIZE {
      if r.Ok? && q.Ok? {
        assert forall i | 0 <= i < |lines| :: Some(r.value[i]) == CutTab(lines[i]) == Some(q.value[i]);
        assert r.value == q.value;
      } else if r.Err? && q.Err? {
        var i :| 0 <= i < |lines| && LineFault(lines, i) == Some(r.error)
                 && forall j | 0 <= j < i :: LineFault(lines, j) == None;
        var k :| 0 <= k < |lines| && LineFault(lines, k) == Some(q.error)
                 && forall j | 0 <= j < k :: LineFault(lines, j) == None;
        assert i == k;
      }
    }
  }

  // ----- printing and parsing back

  /** One `prefix TAB word LF` line per word. */
  function Print(ps: seq<string>, ws: seq<string>): string
    requires |ps| == |ws|
  {
    if ws == [] then "" else ps[0] + "\t" + ws[0] + "\n" + Print(ps[1..], ws[1..])
  }

  predicate NoTabOrLf(p: string) {
    '\t' !in p && '\n' !in p
  }

  lemma {:induction false} CutAfterPrefix(p: string, w: string)
    requires '\t' !in p
    ensures CutTab(p + "\t" + w) == Some(w)
  {
    if p == "" {
      assert p + "\t" + w == "\t" + w;
    } else {
      assert (p + "\t" + w)[1..] == p[1..] + "\t" + w;
      CutAfterPrefix(p[1..], w);
    }
  }

  lemma {:induction false} CutTabSplits(line: string) returns (p: string)
    requires CutTab(line).Some?
    ensures '\t' !in p && line == p + "\t" + CutTab(line).value
    ensures '\n' !in line ==> '\n' !in p
  {
    if line[0] == '\t' {
      p := "";
    } else {
      var q := CutTabSplits(line[1..]);
      p := [line[0]] + q;
    }
  }

  /** Splitting inverts joining with line feeds. */
  lemma {:induction false} SplitFirst(l: string, rest: string)
    requires '\n' !in l
    ensures SplitLines(l + "\n" + rest) == [l] + SplitLines(rest)
  {
    var s := l + "\n" + rest;
    if l == "" {
      assert s[1..] == rest;
    } else {
      assert s[1..] == l[1..] + "\n" + rest;
      SplitFirst(l[1..], rest);
      assert l[0] in l && s[0] == l[0] && l == [l[0]] + l[1..];
    }
  }

  lemma {:induction false} SplitOne(l: string)
    requires '\n' !in l
    ensures SplitLines(l) == [l]
  {
    if l != "" {
      SplitOne(l[1..]);
      assert l[0] in l && l == [l[0]] + l[1..];
    }
  }

  /** The printed text without its final line feed. */
  lemma {:induction false} SplitPrinted(ps: seq<string>, ws: seq<string>) returns (body: string)
    requires |ps| == |ws| > 0
    requires forall i | 0 <= i < |ps| :: NoTabOrLf(ps[i])
    requires forall i | 0 <= i < |ws| :: ws[i] != "" && AllWordChars(ws[i])
    ensures Print(ps, ws) == body + "\n" && body != "" && body[|body| - 1] != '\n'
    ensures Column(SplitLines(body), ws)
  {
    var l := ps[0] + "\t" + ws[0];
    assert '\n' !in ws[0] by {
      assert forall i | 0 <= i < |ws[0]| :: IsWordChar(ws[0][i]);
    }
    CutAfterPrefix(ps[0], ws[0]);
    if |ws| == 1 {
      body := l;
      SplitOne(l);
      assert Print(ps[1..], ws[1..]) == "";
      assert Print(ps, ws) == body + "\n";
      assert body[|body| - 1] == ws[0][|ws[0]| - 1];
    } else {
      var tail := SplitPrinted(ps[1..], ws[1..]);
      body := l + "\n" + tail;
      SplitFirst(l, tail);
      assert Print(ps, ws) == body + "\n";
      forall i | 0 <= i < |ws| ensures CutTab(SplitLines(body)[i]) == Some(ws[i]) {
        if i > 0 {
          assert SplitLines(body)[i] == SplitLines(tail)[i - 1] && ws[1..][i - 1] == ws[i];
        }
      }
    }
  }

  lemma {:induction false} StripCrFree(s: string)
    requires '\r' !in s
    ensures StripCr(s) == s
  {
    if s != "" {
      StripCrFree(s[1..]);
    }
  }

  lemma {:induction false} PrintCrFree(ps: seq<string>, ws: seq<string>)
    requires |ps| == |ws|
    requires forall i | 0 <= i < |ps| :: '\r' !in ps[i]
    requires forall i | 0 <= i < |ws| :: AllWordChars(ws[i])
    ensures '\r' !in Print(ps, ws)
  {
    if ws != [] {
      PrintCrFree(ps[1..], ws[1..]);
      assert forall i | 0 <= i < |ws[0]| :: IsWordChar(ws[0][i]);
    }
  }

  /** Parsing gives back exactly the words that were printed. */
  lemma PrintedListParses(ps: seq<string>, ws: seq<string>)
    requires ValidWords(ws) && |ps| == |ws|
    requires forall i | 0 <= i < |ps| :: NoTabOrLf(ps[i]) && '\r' !in ps[i]
    ensures Outcome(Lines(Print(ps, ws)), Ok(ws))
  {
    PrintCrFree(ps, ws);
    StripCrFree(Print(ps, ws));
    var body := SplitPrinted(ps, ws);
    assert (body + "\n")[..|body|] == body;
    assert TrimNewlines(body + "\n") == TrimNewlines(body) == body;
    AcceptedIffValidColumn(SplitLines(body), ws);
  }

  lemma {:induction false} SplitHasNoLf(s: string)
    ensures forall l | l in SplitLines(s) :: '\n' !in l
  {
    if s != "" {
      SplitHasNoLf(s[1..]);
      var rest := SplitLines(s[1..]);
      assert rest[0] in rest;
      forall l | l in SplitLines(s) ensures '\n' !in l {
        if l !in rest && s[0] != '\n' {
          assert l == [s[0]] + rest[0];
        }
      }
    }
  }

  /** A text whose lines all have a tab is a printed table, up to its final line feed. */
  lemma {:induction false} ColumnIsPrinted(s: string, ws: seq<string>) returns (ps: seq<string>)
    requires Column(SplitLines(s), ws)
    ensures |ps| == |ws| && (forall i | 0 <= i < |ps| :: NoTabOrLf(ps[i]))
    ensures s + "\n" == Print(ps, ws)
    decreases |ws|
  {
    SplitHasNoLf(s);
    var lines := SplitLines(s);
    var rest := SplitRest(s);
    assert lines[0] in lines;
    assert CutTab(lines[0]) == Some(ws[0]);
    var p := CutTabSplits(lines[0]);
    if |ws| == 1 {
      ps := [p];
      assert Print(ps[1..], ws[1..]) == "";
    } else {
      forall i | 0 <= i < |ws[1..]| ensures CutTab(SplitLines(rest)[i]) == Some(ws[1..][i]) {
        assert SplitLines(rest)[i] == lines[i + 1];
      }
      var qs := ColumnIsPrinted(rest, ws[1..]);
      ps := [p] + qs;
      assert ps[1..] == qs;
      calc {
        s + "\n";
        lines[0] + "\n" + (rest + "\n");
        p + "\t" + ws[0] + "\n" + Print(qs, ws[1..]);
        Print(ps, ws);
      }
    }
  }

  lemma {:induction false} SplitRest(s: string) returns (rest: string)
    ensures |SplitLines(s)| == 1 ==> s == SplitLines(s)[0]
    ensures |SplitLines(s)| > 1 ==> s == SplitLines(s)[0] + "\n" + rest && SplitLines(rest) == SplitLines(s)[1..]
  {
    rest := "";
    if s != "" {
      if s[0] == '\n' {
        rest := s[1..];
      } else {
        rest := SplitRest(s[1..]);
        if |SplitLines(s)| > 1 {
          assert s == [s[0]] + s[1..];
        }
      }
    }
  }

  /**
   * The parser accepts exactly the printed tables: a text gives ws if and only if ws is valid and the text, once
   * carriage returns before line feeds and trailing line feeds are dropped, is a `prefix TAB word LF` table of ws.
   */
  lemma AcceptedIffPrinted(raw: string, ws: seq<string>)
    ensures Outcome(Lines(raw), Ok(ws)) <==>
            ValidWords(ws) && exists ps ::
              && |ps| == |ws| && (forall i | 0 <= i < |ps| :: NoTabOrLf(ps[i]))
              && TrimNewlines(StripCr(raw)) + "\n" == Print(ps, ws)
  {
    var s := TrimNewlines(StripCr(raw));
    AcceptedIffValidColumn(SplitLines(s), ws);
    if Outcome(Lines(raw), Ok(ws)) {
      var ps := ColumnIsPrinted(s, ws);
    }
    if ps :| ValidWords(ws) && |ps| == |ws| && (forall i | 0 <= i < |ps| :: NoTabOrLf(ps[i]))
             && s + "\n" == Print(ps, ws) {
      var body := SplitPrinted(ps, ws);
      assert s == (s + "\n")[..|s|] == body;
    }
  }

  /** Exactly the final line feeds go. */
  lemma {:induction false} TrimmedIsPrefix(s: string) returns (k: nat)
    ensures k <= |s| && TrimNewlines(s) == s[..k] && (forall i | k <= i < |s| :: s[i] == '\n')
    ensures k > 0 ==> s[k - 1] != '\n'
  {
    if s != "" && s[|s| - 1] == '\n' {
      k := TrimmedIsPrefix(s[..|s| - 1]);
    } else {
      k := |s|;
    }
  }

  /** Carriage returns go before line feeds and nowhere else: piece by piece, unless a pair straddles the cut. */
  lemma {:induction false} StripCrPiecewise(a: string, b: string)
    requires !(a != "" && a[|a| - 1] == '\r' && b != "" && b[0] == '\n')
    ensures StripCr(a + b) == StripCr(a) + StripCr(b)
    ensures StripCr("\r\n") == "\n" && StripCr("\r") == "\r" && StripCr("\n") == "\n"
  {
    if a == "" {
      assert a + b == b;
    } else if |a| >= 2 && a[0] == '\r' && a[1] == '\n' {
      assert (a + b)[2..] == a[2..] + b;
      StripCrPiecewise(a[2..], b);
    } else {
      assert (a + b)[1..] == a[1..] + b;
      StripCrPiecewise(a[1..], b);
    }
  }

  /** The alphabet of words, letter by letter. */
  lemma WordAlphabet(w: string)
    ensures AllWordChars(w) <==> forall c | c in w :: c in "abcdefghijklmnopqrstuvwxyz-"
  {
    forall c: char ensures IsWordChar(c) <==> c in "abcdefghijklmnopqrstuvwxyz-" {
      var abc := "abcdefghijklmnopqrstuvwxyz-";
      if IsWordChar(c) {
        assert abc[if c == '-' then 26 else (c - 'a') as int] == c;
      }
    }
    assert forall i | 0 <= i < |w| :: w[i] in w;
  }

  /**
   * The reported fault is real, and the first: the lines before it begin a valid list, and its own line has no tab, or
   * its word is empty, has a foreign character, starts with hex-, or is one of the words before it.
   */
  lemma ReportedFaultIsFirst(lines: seq<string>, e: ParseError)
    requires |lines| == 1296 && Outcome(lines, Err(e))
    ensures !e.LineCount? && 1 <= e.line <= |lines|
    ensures
      && (forall i | 0 <= i < e.line - 1 :: CutTab(lines[i]).Some? && IsEntry(CutTab(lines[i]).value))
      && (forall i, j | 0 <= i < j < e.line - 1 :: CutTab(lines[i]) != CutTab(lines[j]))
    ensures
      var cut := CutTab(lines[e.line - 1]);
      match e
      case MissingTab(_) => '\t' !in lines[e.line - 1]
      case EmptyWord(_) => cut == Some("")
      case InvalidWord(_) => cut.Some? && exists c :: c in cut.value && c !in "abcdefghijklmnopqrstuvwxyz-"
      case HexPrefix(_) =>
        && cut.Some? && |cut.value| >= 4 && cut.value[..4] == "hex-"
        && forall c | c in cut.value :: c in "abcdefghijklmnopqrstuvwxyz-"
      case Duplicate(_) => cut.Some? && exists j | 0 <= j < e.line - 1 :: CutTab(lines[j]) == cut
  {
    var i :| 0 <= i < |lines| && LineFault(lines, i) == Some(e) && forall j | 0 <= j < i :: LineFault(lines, j) == None;
    NoTabNoCut(lines[i]);
    if CutTab(lines[i]).Some? {
      WordAlphabet(CutTab(lines[i]).value);
    }
    forall k | 0 <= k < i ensures CutTab(lines[k]).Some? && IsEntry(CutTab(lines[k]).value) {
      assert LineFault(lines, k) == None;
    }
    forall k, j | 0 <= k < j < i ensures CutTab(lines[k]) != CutTab(lines[j]) {
      assert LineFault(lines, j) == None && LineFault(lines, k) == None;
    }
  }

  lemma {:induction false} NoTabNoCut(line: string)
    ensures CutTab(line).None? <==> '\t' !in line
  {
    if line != "" {
      NoTabNoCut(line[1..]);
      assert line == [line[0]] + line[1..];
    }
  }

  // ----- line endings

  /** A checkout that turns every LF into CRLF. */
  function ToCrlf(s: string): string {
    if s == "" then "" else (if s[0] == '\n' then "\r\n" else [s[0]]) + ToCrlf(s[1..])
  }

  lemma {:induction false} StripToCrlf(s: string)
    requires '\r' !in s
    ensures StripCr(ToCrlf(s)) == s
  {
    if s != "" {
      StripToCrlf(s[1..]);
      if s[0] == '\n' {
        assert ToCrlf(s)[2..] == ToCrlf(s[1..]);
      } else {
        assert ToCrlf(s)[1..] == ToCrlf(s[1..]);
      }
    }
  }

  /** On text without carriage returns the CRLF form has the same outcome, accepted or refused. */
  lemma SameOutcomeForCrlf(raw: string, r: Result<seq<string>, ParseError>)
    requires '\r' !in raw
    ensures Outcome(Lines(ToCrlf(raw)), r) <==> Outcome(Lines(raw), r)
  {
    StripToCrlf(raw);
    StripCrFree(raw);
  }

  // ----- a valid word list exists

  function SampleWord(i: nat): string
    requires i < WORDLIST_SIZE
  {
    ['a' + (i / 676) as char, 'a' + (i / 26 % 26) as char, 'a' + (i % 26) as char]
  }

  lemma SampleWordsDiffer(i: nat, j: nat)
    requires i < WORDLIST_SIZE && j < WORDLIST_SIZE && i != j
    ensures SampleWord(i) != SampleWord(j)
  {
    assert i == i / 676 * 676 + i / 26 % 26 * 26 + i % 26;
    assert j == j / 676 * 676 + j / 26 % 26 * 26 + j % 26;
    var w, v := SampleWord(i), SampleWord(j);
    assert w[0] == v[0] ==> i / 676 == j / 676;
    assert w[1] == v[1] ==> i / 26 % 26 == j / 26 % 26;
    assert w[2] == v[2] ==> i % 26 == j % 26;
  }

  lemma ValidWordsExist() returns (ws: seq<string>)
    ensures ValidWords(ws)
  {
    ws := seq(WORDLIST_SIZE, i requires 0 <= i < WORDLIST_SIZE => SampleWord(i));
    forall i, j | 0 <= i < j < |ws| ensures ws[i] != ws[j] {
      SampleWordsDiffer(i, j);
    }
  }
}
