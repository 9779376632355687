/**
 The two scanners for banned C functions: the compiler wrapper's (in C) and the gate's (in
 Python). `Lex` follows their steps; `Expected` says, position by position, what a reader of
 the source would report. Both loops are proved to report exactly that. Sources are ASCII.
 */
module BannedApis {

  const BANNED: set<string> := {"strcpy", "strcat", "sprintf", "vsprintf", "gets", "system", "popen"}
  const BANNED_LIST: seq<string> := ["strcpy", "strcat", "sprintf", "vsprintf", "gets", "system", "popen"]

  const IDENT_MAX: nat := 127

  datatype Mode = Normal | LineComment | BlockComment | InString | InChar

  /** What a scanner reports. */
  datatype Violation = Violation(line: nat, column: nat, api: string)

  /** Where a scanner stands. */
  datatype Cursor = Cursor(at: nat, mode: Mode, line: nat, column: nat)

  datatype Finding = Finding(where: Cursor, api: string)

  const START := Cursor(0, Normal, 1, 1)

  predicate IsLetter(c: char) {
    'A' <= c <= 'Z' || 'a' <= c <= 'z' || c == '_'
  }

  predicate IsWord(c: char) {
    IsLetter(c) || '0' <= c <= '9'
  }

  /** The end of the identifier that `j` is inside or just behind. */
  function WordEnd(src: string, j: nat): (e: nat)
    requires j <= |src|
    ensures j <= e <= |src| && (e < |src| ==> !IsWord(src[e]))
    ensures forall k :: j <= k < e ==> IsWord(src[k])
    decreases |src| - j
  {
    if j < |src| && IsWord(src[j]) then WordEnd(src, j + 1) else j
  }

  predicate Sees(src: string, at: nat, first: char, second: char) {
    at + 1 < |src| && src[at] == first && src[at + 1] == second
  }

  /** Past `n` characters of the same line. */
  function Skip(c: Cursor, n: nat, mode: Mode): Cursor {
    c.(at := c.at + n, mode := mode, column := c.column + n)
  }

  /** Past one character, which may end the line. */
  function One(src: string, c: Cursor, mode: Mode): Cursor
    requires c.at < |src|
  {
    if src[c.at] == '\n' then Cursor(c.at + 1, mode, c.line + 1, 1) else Skip(c, 1, mode)
  }

  function Next(src: string, c: Cursor): (next: Cursor)
    requires c.at < |src|
    ensures c.at < next.at <= |src|
  {
    var ch := src[c.at];
    match c.mode
    case Normal =>
      if Sees(src, c.at, '/', '/') then Skip(c, 2, LineComment)
      else if Sees(src, c.at, '/', '*') then Skip(c, 2, BlockComment)
      else if ch == '"' then One(src, c, InString)
      else if ch == '\'' then One(src, c, InChar)
      else if IsLetter(ch) then Skip(c, WordEnd(src, c.at + 1) - c.at, Normal)
      else One(src, c, Normal)
    case LineComment => One(src, c, if ch == '\n' then Normal else LineComment)
    case BlockComment =>
      if Sees(src, c.at, '*', '/') then Skip(c, 2, Normal) else One(src, c, BlockComment)
    case InString =>
      if ch == '\\' && c.at + 1 < |src| then Skip(c, 2, c.mode) else One(src, c, if ch == '"' then Normal else InString)
    case InChar =>
      if ch == '\\' && c.at + 1 < |src| then Skip(c, 2, c.mode) else One(src, c, if ch == '\'' then Normal else InChar)
  }

  /** The identifier at the cursor, when code starts one there. */
  function TokenAt(src: string, c: Cursor): string
    requires c.at < |src|
  {
    if c.mode == Normal && IsLetter(src[c.at]) then src[c.at..WordEnd(src, c.at + 1)] else ""
  }

  function Lex(src: string, c: Cursor): seq<Finding>
    decreases |src| - c.at
  {
    if c.at >= |src| then []
    else
      var token := TokenAt(src, c);
      (if token in BANNED then [Finding(c, token)] else []) + Lex(src, Next(src, c))
  }

  function Violations(found: seq<Finding>): (v: seq<Violation>)
    ensures |v| == |found|
  {
    seq(|found|, i requires 0 <= i < |found| => Violation(found[i].where.line, found[i].where.column, found[i].api))
  }

  lemma LexStep(src: string, c: Cursor)
    requires c.at < |src|
    ensures Lex(src, c) == (if TokenAt(src, c) in BANNED then [Finding(c, TokenAt(src, c))] else []) + Lex(src, Next(src, c))
  {
  }

  /** What is found at the cursor. */
  ghost function Here(src: string, c: Cursor): seq<Finding>
    requires c.at < |src|
  {
    if TokenAt(src, c) in BANNED then [Finding(c, TokenAt(src, c))] else []
  }

  /** A scan that has found `found` so far takes one more step. */
  lemma LexGoesOn(src: string, c: Cursor, found: seq<Finding>)
    requires c.at < |src|
    ensures found + Lex(src, c) == (found + Here(src, c)) + Lex(src, Next(src, c))
    ensures Violations(found + Here(src, c)) == Violations(found) + Violations(Here(src, c))
    ensures Violations(Here(src, c)) ==
            if TokenAt(src, c) in BANNED then [Violation(c.line, c.column, TokenAt(src, c))] else []
    ensures TokenAt(src, c) == "" ==> found + Here(src, c) == found
  {
    hide Lex, BANNED;
    LexStep(src, c);
    NotBanned();
    assert found + [] == found;
    assert found + (Here(src, c) + Lex(src, Next(src, c))) == (found + Here(src, c)) + Lex(src, Next(src, c));
  }

  /** Cutting an identifier to the buffer of the C scanner does not change whether it is banned. */
  lemma CapIsHarmless(token: string)
    ensures (if |token| > IDENT_MAX then token[..IDENT_MAX] else token) in BANNED <==> token in BANNED
  {
    assert forall api | api in BANNED :: |api| <= 8;
  }

  lemma BannedListed(ident: string)
    ensures ident in BANNED <==> ident in BANNED_LIST
  {
  }

  /** The lookup loop of the C scanner. */
  method IsBanned(ident: string) returns (banned: bool)
    ensures banned == (ident in BANNED)
  {
    banned := false;
    BannedListed(ident);
    for b := 0 to |BANNED_LIST|
      invariant ident !in BANNED_LIST[..b]
    {
      if ident == BANNED_LIST[b] {
        return true;
      }
    }
    assert BANNED_LIST[..|BANNED_LIST|] == BANNED_LIST;
  }

  /** Collects an identifier from `i` on, keeping at most 127 of its characters. */
  method CollectIdent(src: string, i: nat) returns (ident: string, j: nat)
    requires i < |src| && IsLetter(src[i])
    ensures j == WordEnd(src, i + 1)
    ensures ident == if j - i > IDENT_MAX then src[i..i + IDENT_MAX] else src[i..j]
  {
    ident := [src[i]];
    j := i + 1;
    while j < |src| && IsWord(src[j])
      invariant i < j <= |src| && WordEnd(src, j) == WordEnd(src, i + 1)
      invariant ident == if j - i > IDENT_MAX then src[i..i + IDENT_MAX] else src[i..j]
    {
      if |ident| < IDENT_MAX {
        ident := ident + [src[j]];
      }
      j := j + 1;
    }
  }

  /** One identifier of the compiler wrapper's scanner: where it ends, and the report, if any. */
  method CheckIdentifier(src: string, i: nat, line: nat, col: nat) returns (j: nat, hit: seq<Violation>)
    requires i < |src| && IsLetter(src[i])
    ensures i < j <= |src| && j == WordEnd(src, i + 1)
    ensures hit == if src[i..j] in BANNED then [Violation(line, col, src[i..j])] else []
  {
    hide BANNED;
    var ident;
    ident, j := CollectIdent(src, i);
    CapIsHarmless(src[i..j]);
    assert j - i > IDENT_MAX ==> src[i..j][..IDENT_MAX] == ident;
    hit := [];
    var banned := IsBanned(ident);
    if banned {
      ShortToken(src[i..j]);
      hit := [Violation(line, col, ident)];
    }
  }

  /** The scanner of the compiler wrapper: line and column are advanced before the state is looked at. */
  method ScanSourceBuffer(src: string) returns (reports: seq<Violation>, violations: nat)
    ensures reports == Violations(Lex(src, START)) == Expected(src, 0) && violations == |reports|
  {
    hide Lex, BANNED;
    var state := Normal;
    var line, col, i := 1, 1, 0;
    reports, violations := [], 0;
    ghost var c := START;
    ghost var found: seq<Finding> := [];
    while i < |src|
      invariant c.at == i <= |src| && c.mode == state && c.line == line && c.column == col
      invariant Lex(src, START) == found + Lex(src, c)
      invariant reports == Violations(found) && violations == |reports|
      decreases |src| - c.at
    {
      LexGoesOn(src, c, found);
      ghost var here := Here(src, c);
      c := Next(src, c);
      var ch := src[i];
      var curLine, curCol := line, col;
      if ch == '\n' {
        line, col := line + 1, 1;
      } else {
        col := col + 1;
      }
      match state {
        case Normal =>
          if ch == '/' && i + 1 < |src| && src[i + 1] == '/' {
            state, i, col := LineComment, i + 2, col + 1;
            continue;
          } else if ch == '/' && i + 1 < |src| && src[i + 1] == '*' {
            state, i, col := BlockComment, i + 2, col + 1;
            continue;
          } else if ch == '"' {
            state := InString;
          } else if ch == '\'' {
            state := InChar;
          } else if IsLetter(ch) {
            var j, hit := CheckIdentifier(src, i, curLine, curCol);
            assert hit == Violations(here);
            reports, violations := reports + hit, violations + |hit|;
            found := found + here;
            col := col + (j - i - 1);
            i := j;
            continue;
          }
        case LineComment =>
          if ch == '\n' {
            state := Normal;
          }
        case BlockComment =>
          if ch == '*' && i + 1 < |src| && src[i + 1] == '/' {
            state, i, col := Normal, i + 2, col + 1;
            continue;
          }
        case InString =>
          if ch == '\\' && i + 1 < |src| {
            i, col := i + 2, col + 1;
            continue;
          } else if ch == '"' {
            state := Normal;
          }
        case InChar =>
          if ch == '\\' && i + 1 < |src| {
            i, col := i + 2, col + 1;
            continue;
          } else if ch == '\'' {
            state := Normal;
          }
      }
      i := i + 1;
    }
    LexEnd(src, c);
    assert found + [] == found;
    ReportsAreExact(src);
  }

  lemma LexEnd(src: string, c: Cursor)
    requires c.at >= |src|
    ensures Lex(src, c) == []
  {
  }

  lemma NotBanned()
    ensures "" !in BANNED
  {
  }

  lemma ShortToken(token: string)
    requires token in BANNED
    ensures |token| <= 8
  {
  }

  /** The scanner of the gate: the next line and column are computed first and stored where a branch ends. */
  method ScanCSource(content: string) returns (violations: seq<Violation>)
    ensures violations == Violations(Lex(content, START)) == Expected(content, 0)
  {
    hide Lex, BANNED, Violations, Here;
    var state, i, n := 0, 0, |content|;
    var lineNum, colNum := 1, 1;
    violations := [];
    ghost var c := START;
    ghost var found: seq<Finding> := [];
    while i < n
      invariant c.at == i <= |content| && StateNumber(c.mode) == state && c.line == lineNum && c.column == colNum
      invariant Lex(content, START) == found + Lex(content, c)
      invariant violations == Violations(found)
      decreases n - i
    {
      LexGoesOn(content, c, found);
      ghost var here := Here(content, c);
      c := Next(content, c);
      var ch := content[i];
      var nextLine, nextCol := lineNum, colNum + 1;
      if ch == '\n' {
        nextLine, nextCol := lineNum + 1, 1;
      }
      if state == 0 {
        if ch == '/' && i + 1 < n && content[i + 1] == '/' {
          state, i, colNum := 1, i + 2, colNum + 2;
          continue;
        } else if ch == '/' && i + 1 < n && content[i + 1] == '*' {
          state, i, colNum := 2, i + 2, colNum + 2;
          continue;
        } else if ch == '"' {
          state, i := 3, i + 1;
          lineNum, colNum := nextLine, nextCol;
          continue;
        } else if ch == '\'' {
          state, i := 4, i + 1;
          lineNum, colNum := nextLine, nextCol;
          continue;
        } else if IsLetter(ch) {
          var tokLine, tokCol := lineNum, colNum;
          var j := i + 1;
          while j < n && IsWord(content[j])
            invariant i < j <= n && WordEnd(content, j) == WordEnd(content, i + 1)
          {
            j := j + 1;
          }
          var tok := content[i..j];
          if tok in BANNED {
            violations := violations + [Violation(tokLine, tokCol, tok)];
          }
          found := found + here;
          colNum := colNum + (j - i);
          i := j;
          continue;
        }
      } else if state == 1 {
        if ch == '\n' {
          state := 0;
        }
      } else if state == 2 {
        if ch == '*' && i + 1 < n && content[i + 1] == '/' {
          state, i, colNum := 0, i + 2, colNum + 2;
          lineNum := nextLine;
          continue;
        }
      } else if state == 3 {
        if ch == '\\' && i + 1 < n {
          i, colNum := i + 2, colNum + 2;
          continue;
        } else if ch == '"' {
          state := 0;
        }
      } else if state == 4 {
        if ch == '\\' && i + 1 < n {
          i, colNum := i + 2, colNum + 2;
          continue;
        } else if ch == '\'' {
          state := 0;
        }
      }
      i := i + 1;
      lineNum, colNum := nextLine, nextCol;
    }
    LexEnd(content, c);
    assert found + [] == found;
    ReportsAreExact(content);
  }

  function StateNumber(mode: Mode): nat {
    match mode
    case Normal => 0
    case LineComment => 1
    case BlockComment => 2
    case InString => 3
    case InChar => 4
  }

  /** The two scanners, run on one source, report the same violations in the same order. */
  method ScannersAgree(src: string) returns (fromWrapper: seq<Violation>, fromGate: seq<Violation>)
    ensures fromWrapper == fromGate == Expected(src, 0)
  {
    var count;
    fromWrapper, count := ScanSourceBuffer(src);
    fromGate := ScanCSource(src);
  }

  // ---- what a reader of the source would report ----

  /** What the characters before a position make of it. `Slash` and `Star` may begin or end a comment. */
  datatype Region = Code | Slash | Line | Block | Star | Literal(quote: char) | Escaped(quote: char)

  /** One character further: comments, string and character literals, and escapes in literals. */
  function After(r: Region, ch: char): Region {
    match r
    case Code => if ch == '/' then Slash else Opened(ch)
    case Slash => if ch == '/' then Line else if ch == '*' then Block else Opened(ch)
    case Line => if ch == '\n' then Code else Line
    case Block => if ch == '*' then Star else Block
    case Star => if ch == '/' then Code else if ch == '*' then Star else Block
    case Literal(q) => if ch == '\\' then Escaped(q) else if ch == q then Code else Literal(q)
    case Escaped(q) => Literal(q)
  }

  function Opened(ch: char): Region {
    if ch == '"' || ch == '\'' then Literal(ch) else Code
  }

  function RegionAt(src: string, i: nat): Region
    requires i <= |src|
  {
    if i == 0 then Code else After(RegionAt(src, i - 1), src[i - 1])
  }

  predicate InCode(src: string, i: nat)
    requires i <= |src|
  {
    RegionAt(src, i).Code? || RegionAt(src, i).Slash?
  }

  /** A newline that a backslash in a literal stands before. */
  predicate ContinuedLine(src: string, i: nat)
    requires i < |src|
  {
    src[i] == '\n' && RegionAt(src, i).Escaped?
  }

  /** Whether the run of word characters that ends before `i` has a letter in it. */
  predicate InName(src: string, i: nat)
    requires i <= |src|
  {
    i > 0 && IsWord(src[i - 1]) && (IsLetter(src[i - 1]) || InName(src, i - 1))
  }

  /** A name begins at the first letter of a run of word characters; digits may stand before it. */
  predicate NameStarts(src: string, i: nat)
    requires i < |src|
  {
    InCode(src, i) && IsLetter(src[i]) && !InName(src, i)
  }

  predicate Banned(src: string, i: nat)
    requires i < |src|
  {
    NameStarts(src, i) && src[i..WordEnd(src, i + 1)] in BANNED
  }

  /** The number of the line, where a continued line does not count. */
  function LineNumber(src: string, i: nat): nat
    requires i <= |src|
  {
    if i == 0 then 1
    else LineNumber(src, i - 1) + (if src[i - 1] == '\n' && !ContinuedLine(src, i - 1) then 1 else 0)
  }

  /** Where that line begins. */
  function LineStart(src: string, i: nat): (start: nat)
    requires i <= |src|
    ensures start <= i
  {
    if i == 0 then 0
    else if src[i - 1] == '\n' && !ContinuedLine(src, i - 1) then i
    else LineStart(src, i - 1)
  }

  function Report(src: string, i: nat): Violation
    requires i < |src|
  {
    Violation(LineNumber(src, i), i - LineStart(src, i) + 1, src[i..WordEnd(src, i + 1)])
  }

  /** Every banned name in code from `i` on, in order. */
  function Expected(src: string, i: nat): seq<Violation>
    requires i <= |src|
    decreases |src| - i
  {
    if i == |src| then [] else (if Banned(src, i) then [Report(src, i)] else []) + Expected(src, i + 1)
  }

  // ---- the scanners report exactly that ----

  /** The mode of a scanner is the region it is in, seen from where the next character is known. */
  ghost predicate Agrees(src: string, at: nat, mode: Mode)
    requires at <= |src|
  {
    var r := RegionAt(src, at);
    match mode
    case Normal => r == Code || (r == Slash && (at < |src| ==> src[at] != '/' && src[at] != '*'))
    case LineComment => r == Line
    case BlockComment => r == Block || (r == Star && (at < |src| ==> src[at] != '/'))
    case InString => r == Literal('"') || (at == |src| && r == Escaped('"'))
    case InChar => r == Literal('\'') || (at == |src| && r == Escaped('\''))
  }

  /** What is true of every place the scanners stop at. */
  ghost predicate WellPlaced(src: string, c: Cursor) {
    && c.at <= |src| && Agrees(src, c.at, c.mode)
    && c.line == LineNumber(src, c.at)
    && c.column == c.at - LineStart(src, c.at) + 1
    && (c.mode == Normal && c.at < |src| && IsWord(src[c.at]) ==> !InName(src, c.at))
  }

  lemma StartPlaced(src: string)
    ensures WellPlaced(src, START)
  {
  }

  /** Inside a name the region, the line and its start do not change. */
  lemma {:induction false} ThroughName(src: string, i: nat, j: nat)
    requires i < j <= |src| && InCode(src, i) && IsLetter(src[i]) && forall k :: i < k < j ==> IsWord(src[k])
    ensures RegionAt(src, j) == Code && InName(src, j)
    ensures LineNumber(src, j) == LineNumber(src, i) && LineStart(src, j) == LineStart(src, i)
    decreases j
  {
    if i + 1 < j {
      ThroughName(src, i, j - 1);
    }
  }

  /** Each step of the scanners keeps mode, line and column true. */
  lemma NextWellPlaced(src: string, c: Cursor)
    requires WellPlaced(src, c) && c.at < |src|
    ensures WellPlaced(src, Next(src, c))
  {
    if c.mode == Normal && IsLetter(src[c.at]) {
      ThroughName(src, c.at, WordEnd(src, c.at + 1));
    } else {
      PlainNext(src, c);
    }
  }

  lemma PlainNext(src: string, c: Cursor)
    requires WellPlaced(src, c) && c.at < |src| && !(c.mode == Normal && IsLetter(src[c.at]))
    ensures WellPlaced(src, Next(src, c))
  {
    hide WordEnd, BANNED, RegionAt, LineNumber, LineStart, InName;
    var i := c.at;
    OneFurther(src, i);
    if i + 1 < |src| {
      OneFurther(src, i + 1);
    }
  }

  lemma OneFurther(src: string, i: nat)
    requires i < |src|
    ensures RegionAt(src, i + 1) == After(RegionAt(src, i), src[i])
    ensures LineNumber(src, i + 1) == LineNumber(src, i) + (if src[i] == '\n' && !ContinuedLine(src, i) then 1 else 0)
    ensures LineStart(src, i + 1) == if src[i] == '\n' && !ContinuedLine(src, i) then i + 1 else LineStart(src, i)
    ensures InName(src, i + 1) == (IsWord(src[i]) && (IsLetter(src[i]) || InName(src, i)))
  {
  }

  /** Where the scanner does not stop in code, no banned name begins. */
  lemma NothingBetween(src: string, c: Cursor, k: nat)
    requires WellPlaced(src, c) && c.at < |src| && c.at < k < Next(src, c).at
    ensures !Banned(src, k)
  {
    if c.mode == Normal && IsLetter(src[c.at]) {
      ThroughName(src, c.at, k);
    } else {
      assert k == c.at + 1;
      assert RegionAt(src, k) == After(RegionAt(src, c.at), src[c.at]);
    }
  }

  lemma {:induction false} SkipAhead(src: string, i: nat, j: nat)
    requires i <= j <= |src| && forall k :: i <= k < j ==> !Banned(src, k)
    ensures Expected(src, i) == Expected(src, j)
    decreases j - i
  {
    hide Banned, Report;
    if i < j {
      SkipAhead(src, i + 1, j);
    }
  }

  /** From any place a scanner stops at, the rest of its findings is what is expected from there. */
  lemma {:induction false} LexIsExpected(src: string, c: Cursor)
    requires WellPlaced(src, c)
    ensures Violations(Lex(src, c)) == Expected(src, c.at)
    decreases |src| - c.at
  {
    hide Banned, Report, WellPlaced, BANNED, TokenAt, Lex, Next, WordEnd, Violations, Expected;
    PlacedInside(src, c);
    if c.at == |src| {
      NothingAtEnd(src, c);
    } else {
      var next := Next(src, c);
      NextWellPlaced(src, c);
      LexIsExpected(src, next);
      forall k | c.at < k < next.at
        ensures !Banned(src, k)
      {
        NothingBetween(src, c, k);
      }
      SkipAhead(src, c.at + 1, next.at);
      SameStep(src, c);
    }
  }

  lemma NothingAtEnd(src: string, c: Cursor)
    requires c.at == |src|
    ensures Violations(Lex(src, c)) == Expected(src, c.at)
  {
  }

  /** The finding at a stop is the expected one, and then come those of the next stop. */
  lemma SameStep(src: string, c: Cursor)
    requires WellPlaced(src, c) && c.at < |src|
    requires Violations(Lex(src, Next(src, c))) == Expected(src, c.at + 1)
    ensures Violations(Lex(src, c)) == Expected(src, c.at)
  {
    hide Banned, Report, WellPlaced, BANNED, TokenAt, Lex, Next, WordEnd;
    FoundHere(src, c);
    LexStep(src, c);
    var here := if TokenAt(src, c) in BANNED then [Finding(c, TokenAt(src, c))] else [];
    assert Violations(here) == if Banned(src, c.at) then [Report(src, c.at)] else [];
    ViolationsJoin(here, Lex(src, Next(src, c)));
  }

  lemma ViolationsJoin(a: seq<Finding>, b: seq<Finding>)
    ensures Violations(a + b) == Violations(a) + Violations(b)
  {
  }

  lemma PlacedInside(src: string, c: Cursor)
    requires WellPlaced(src, c)
    ensures c.at <= |src|
  {
  }

  /** A stop is a finding exactly if a banned name begins there, and the report is the same. */
  lemma FoundHere(src: string, c: Cursor)
    requires WellPlaced(src, c) && c.at < |src|
    ensures TokenAt(src, c) in BANNED <==> Banned(src, c.at)
    ensures Banned(src, c.at) ==> Violation(c.line, c.column, TokenAt(src, c)) == Report(src, c.at)
  {
    NotBanned();
  }

  /** Scanner exactness: what either scanner reports is every banned name in code, with its place, and nothing else. */
  lemma ReportsAreExact(src: string)
    ensures Violations(Lex(src, START)) == Expected(src, 0)
  {
    StartPlaced(src);
    LexIsExpected(src, START);
  }

  /** Every report is a banned name that begins in code at some position. */
  lemma {:induction false} FindingsAreReal(src: string, i: nat, v: Violation)
    requires i <= |src| && v in Expected(src, i)
    ensures exists at :: i <= at < |src| && Banned(src, at) && v == Report(src, at)
    decreases |src| - i
  {
    hide Banned, Report;
    if !(Banned(src, i) && v == Report(src, i)) {
      FindingsAreReal(src, i + 1, v);
    }
  }

  /** No banned name that begins in code is missed. */
  lemma {:induction false} BannedWordsAreFound(src: string, i: nat, at: nat)
    requires i <= at < |src| && Banned(src, at)
    ensures Report(src, at) in Expected(src, i)
    decreases at - i
  {
    hide Banned, Report;
    if i < at {
      BannedWordsAreFound(src, i + 1, at);
    }
  }

  // ---- lines and columns ----

  ghost function Newlines(s: string): nat {
    if s == [] then 0 else Newlines(s[..|s| - 1]) + (if s[|s| - 1] == '\n' then 1 else 0)
  }

  lemma OneMore(src: string, at: nat)
    requires at < |src|
    ensures Newlines(src[..at + 1]) == Newlines(src[..at]) + (if src[at] == '\n' then 1 else 0)
  {
    assert src[..at + 1][..at] == src[..at];
  }

  /** Where a line of the file really begins. */
  ghost function TrueStart(src: string, i: nat): (start: nat)
    requires i <= |src|
    ensures start <= i
  {
    if i == 0 then 0 else if src[i - 1] == '\n' then i else TrueStart(src, i - 1)
  }

  /**
   When the reported line is the line in the file: exactly if no literal before it is
   continued over a newline by a backslash. Otherwise it is too small.
   */
  lemma {:induction false} LineIsTrueIff(src: string, i: nat)
    requires i <= |src|
    ensures LineNumber(src, i) <= 1 + Newlines(src[..i])
    ensures LineNumber(src, i) == 1 + Newlines(src[..i]) <==> forall k :: 0 <= k < i ==> !ContinuedLine(src, k)
  {
    hide ContinuedLine;
    if i > 0 {
      LineIsTrueIff(src, i - 1);
      OneMore(src, i - 1);
      ContinuedIsNewline(src, i - 1);
    } else {
      assert src[..0] == [];
    }
  }

  lemma ContinuedIsNewline(src: string, i: nat)
    requires i < |src|
    ensures ContinuedLine(src, i) ==> src[i] == '\n'
  {
  }

  /** The reported column is the column in the file exactly if the line it is in does not begin after such a newline. */
  lemma {:induction false} ColumnIsTrueIff(src: string, i: nat)
    requires i <= |src|
    ensures LineStart(src, i) <= TrueStart(src, i)
    ensures TrueStart(src, i) > 0 ==> src[TrueStart(src, i) - 1] == '\n'
    ensures LineStart(src, i) == TrueStart(src, i) <==> TrueStart(src, i) == 0 || !ContinuedLine(src, TrueStart(src, i) - 1)
  {
    hide ContinuedLine;
    if i > 0 {
      ColumnIsTrueIff(src, i - 1);
      ContinuedIsNewline(src, i - 1);
    }
  }

  /** "The reported line is the line in the file" is false: a continued string literal shifts it. */
  lemma ContinuedLiteralShiftsLines()
    ensures var src := "\"\\\n\" gets";
            && Violations(Lex(src, START)) == [Violation(1, 6, "gets")]
            && Newlines(src[..5]) == 1
  {
    hide Lex;
    var src := "\"\\\n\" gets";
    var c4 := Cursor(5, Normal, 1, 6);
    LiteralPrefix(src);
    WordOfFour(src);
    assert src[5..9] == "gets" && TokenAt(src, c4) == "gets";
    LexStep(src, c4);
    LexEnd(src, Next(src, c4));
    assert Lex(src, START) == [Finding(c4, "gets")];
    OneMore(src, 0);
    OneMore(src, 1);
    OneMore(src, 2);
    OneMore(src, 3);
    OneMore(src, 4);
    assert src[..0] == "";
  }

  /** A digit does not end a name's run, so a banned name right behind one is reported. */
  lemma DigitBeforeName()
    ensures Expected("9gets", 0) == [Violation(1, 2, "gets")]
  {
    var src := "9gets";
    assert WordEnd(src, 4) == WordEnd(src, 5) == 5;
    assert WordEnd(src, 2) == WordEnd(src, 3) == 5;
    assert src[1..5] == "gets";
    ThroughName(src, 1, 2);
    ThroughName(src, 1, 3);
    ThroughName(src, 1, 4);
    SkipAhead(src, 2, 5);
    assert !InName(src, 1) && RegionAt(src, 1) == Code;
    assert Expected(src, 1) == [Report(src, 1)];
  }

  /** A scan over a string literal that holds only a continued line, and a blank behind it. */
  lemma LiteralPrefix(src: string)
    requires |src| == 9 && src[0] == '"' && src[1] == '\\' && src[2] == '\n' && src[3] == '"' && src[4] == ' '
    ensures Lex(src, START) == Lex(src, Cursor(5, Normal, 1, 6))
  {
    hide Lex, BANNED, WordEnd, Next, TokenAt;
    PlainStep(src, START, InString);
    EscapeStep(src, Cursor(1, InString, 1, 2));
    PlainStep(src, Cursor(3, InString, 1, 4), Normal);
    PlainStep(src, Cursor(4, Normal, 1, 5), Normal);
  }

  /** A step over one character that starts no comment, no escape and no identifier. */
  lemma PlainStep(src: string, c: Cursor, mode: Mode)
    requires c.at < |src| && src[c.at] != '\n' && src[c.at] != '/' && src[c.at] != '\'' && src[c.at] != '\\' && !IsLetter(src[c.at])
    requires c.mode == Normal || c.mode == InString
    requires mode == if src[c.at] != '"' then c.mode else if c.mode == Normal then InString else Normal
    ensures Lex(src, c) == Lex(src, Skip(c, 1, mode))
  {
    hide Lex, BANNED, WordEnd;
    NotBanned();
    LexStep(src, c);
  }

  lemma EscapeStep(src: string, c: Cursor)
    requires c.at + 1 < |src| && c.mode == InString && src[c.at] == '\\'
    ensures Lex(src, c) == Lex(src, Skip(c, 2, InString))
  {
    hide Lex, BANNED, WordEnd;
    NotBanned();
    LexStep(src, c);
  }

  lemma WordOfFour(src: string)
    requires |src| == 9 && IsWord(src[6]) && IsWord(src[7]) && IsWord(src[8])
    ensures WordEnd(src, 6) == 9
  {
    assert WordEnd(src, 8) == WordEnd(src, 9) == 9;
    assert WordEnd(src, 7) == WordEnd(src, 8);
  }
}
