/** Reading files written by hand (hw2/src/read.c:118-129, 333-388, 489-513, 616-631): any separators,
    numbers in any decimal notation, an assignment's lines and keywords in any order and number, blank
    lines and comments. */
module CourseLanguage {
  import opened CourseText
  import opened CourseReader
  import opened PrintedNumbers
  import opened CourseRoundTrip

  // ----- separators -------------------------------------------------------------------------------

  ghost predicate Blanks(s: string) {
    forall k :: 0 <= k < |s| ==> Ws(s[k])
  }

  lemma Separators()
    ensures Blanks(" ") && Blanks("\t") && Blanks(",") && Blanks(":") && Blanks("\U{C}")
    ensures !Ws('\n') && !Ws('#') && forall c :: IsDigit(c) || 'A' <= c <= 'Z' || 'a' <= c <= 'z' ==> !Ws(c)
  {
  }

  lemma {:induction false} BlanksDoNotMatter(sep: string, s: string)
    requires Blanks(sep)
    ensures Gobbled(sep + s) == Gobbled(s)
    decreases |sep|
  {
    if sep == [] {
      assert sep + s == s;
    } else {
      assert (sep + s)[1..] == sep[1..] + s;
      BlanksDoNotMatter(sep[1..], s);
    }
  }

  lemma PeekWord(sep: string, w: string, rest: string, e: nat)
    requires Blanks(sep) && IsWord(w) && Boundary(rest)
    ensures Peek(sep + (w + rest), e) == Fine(In(rest, Some(w), e))
  {
    BlanksDoNotMatter(sep, w + rest);
    assert Gobbled(w + rest) == w + rest;
    WordLenOf(w, rest);
    assert (w + rest)[|w|..] == rest && (w + rest)[..|w|] == w;
  }

  lemma CheckAny(sep: string, w: string, rest: string, e: nat)
    requires Blanks(sep) && IsWord(w) && Boundary(rest)
    ensures forall k: string :: Check(In(sep + (w + rest), None, e), k) == Fine(Checked(k == w, w, rest, e))
    ensures forall k: string :: Check(In(rest, Some(w), e), k) == Fine(Checked(k == w, w, rest, e))
  {
    PeekWord(sep, w, rest, e);
  }

  // ----- numbers ----------------------------------------------------------------------------------

  /** A number as somebody wrote it, after some separators. */
  datatype Num = Num(sep: string, text: string, value: real)

  ghost predicate FitsNum(x: Num) {
    Blanks(x.sep) && x.sep != [] && IsWord(x.text) && Scan(x.text) == Some(x.value)
  }

  function NumText(x: Num, rest: string): string {
    x.sep + (x.text + rest)
  }

  lemma NumRead(x: Num, rest: string, e: nat)
    requires FitsNum(x) && Boundary(rest)
    ensures Number(In(NumText(x, rest), None, e)) == Fine(Read(Some(x.value), In(rest, None, e)))
    ensures Boundary(NumText(x, rest))
  {
    hide Scan;
    PeekWord(x.sep, x.text, rest, e);
    assert NumText(x, rest)[0] == x.sep[0];
  }

  // ----- the keywords of NORMALIZE ------------------------------------------------------------------

  datatype Kind = SayRaw | SayStd | SayGen(mean: Num, dev: Num) | SayQuantile | SayScale(x: Num) | SayClass | SaySection

  datatype NormWord = NormWord(sep: string, kind: Kind)

  function Key(k: Kind): string {
    match k
    case SayRaw => "RAW"
    case SayStd => "STDLINEAR"
    case SayGen(_, _) => "GENLINEAR"
    case SayQuantile => "QUANTILE"
    case SayScale(_) => "SCALE"
    case SayClass => "BYCLASS"
    case SaySection => "BYSECTION"
  }

  function Args(k: Kind, rest: string): string {
    match k
    case SayGen(mean, dev) => NumText(mean, NumText(dev, rest))
    case SayScale(x) => NumText(x, rest)
    case _ => rest
  }

  ghost predicate FitsNorm(w: NormWord) {
    Blanks(w.sep) && w.sep != [] && (w.kind.SayGen? ==> FitsNum(w.kind.mean) && FitsNum(w.kind.dev))
    && (w.kind.SayScale? ==> FitsNum(w.kind.x))
  }

  function NormText(ws: seq<NormWord>, rest: string): string {
    if ws == [] then rest else ws[0].sep + (Key(ws[0].kind) + Args(ws[0].kind, NormText(ws[1..], rest)))
  }

  /** What a keyword means. */
  function Said(a: Assignment, k: Kind): Assignment {
    match k
    case SayRaw => a.(policy := Raw)
    case SayStd => a.(policy := Linear(0.0, 1.0))
    case SayGen(mean, dev) => a.(policy := Linear(mean.value, dev.value))
    case SayQuantile => a.(policy := Quantile)
    case SayScale(x) => a.(policy := Scale(x.value))
    case SayClass => a.(group := ByClass)
    case SaySection => a.(group := BySection)
  }

  function SaidAll(a: Assignment, ws: seq<NormWord>): Assignment
    decreases |ws|
  {
    if ws == [] then a else SaidAll(Said(a, ws[0].kind), ws[1..])
  }

  ghost predicate FitsNorms(ws: seq<NormWord>) {
    forall w :: w in ws ==> FitsNorm(w)
  }

  lemma NormBoundary(ws: seq<NormWord>, rest: string)
    requires FitsNorms(ws) && Boundary(rest)
    ensures Boundary(NormText(ws, rest))
  {
    if ws != [] {
      assert ws[0] in ws;
      assert NormText(ws, rest)[0] == ws[0].sep[0];
    }
  }

  lemma ArgsBoundary(k: Kind, rest: string)
    requires FitsNorm(NormWord(" ", k)) && Boundary(rest)
    ensures Boundary(Args(k, rest)) && IsWord(Key(k))
  {
    hide Scan;
  }

  lemma NormStops(a: Assignment, rest: string, found: bool, e: nat)
    ensures NormWords(a, In(EndLine(rest), None, e), found) == Fine(Read((a, found), In(EndLine(rest), None, e)))
  {
    assert Gobbled(EndLine(rest)) == EndLine(rest) && WordLen(EndLine(rest)) == 0;
    assert EndLine(rest)[0..] == EndLine(rest);
  }

  /** The checks of one round, given the keyword w that comes next. */
  lemma Round(sep: string, w: string, rest: string, e: nat)
    requires Blanks(sep) && IsWord(w) && Boundary(rest)
    ensures Check(In(sep + (w + rest), None, e), "RAW") == Fine(Checked("RAW" == w, w, rest, e))
    ensures Check(In(rest, Some(w), e), "STDLINEAR") == Fine(Checked("STDLINEAR" == w, w, rest, e))
    ensures Check(In(rest, Some(w), e), "GENLINEAR") == Fine(Checked("GENLINEAR" == w, w, rest, e))
    ensures Check(In(rest, Some(w), e), "QUANTILE") == Fine(Checked("QUANTILE" == w, w, rest, e))
    ensures Check(In(rest, Some(w), e), "SCALE") == Fine(Checked("SCALE" == w, w, rest, e))
    ensures Check(In(rest, Some(w), e), "BYCLASS") == Fine(Checked("BYCLASS" == w, w, rest, e))
    ensures Check(In(rest, Some(w), e), "BYSECTION") == Fine(Checked("BYSECTION" == w, w, rest, e))
  {
    CheckAny(sep, w, rest, e);
  }

  /** One keyword with its numbers. */
  lemma NormStep(a: Assignment, sep: string, k: Kind, rest: string, found: bool, e: nat)
    requires Blanks(sep) && FitsNorm(NormWord(" ", k)) && Boundary(rest)
    ensures NormWords(a, In(sep + (Key(k) + Args(k, rest)), None, e), found) ==
      NormWords(Said(a, k), In(rest, None, e), true)
  {
    match k {
      case SayGen(mean, dev) => NormGen(a, sep, mean, dev, rest, found, e);
      case SayScale(x) => NormScaled(a, sep, x, rest, found, e);
      case _ =>
        hide FitsNum, IsWord, Boundary, NumText, Number;
        ArgsBoundary(k, rest);
        Round(sep, Key(k), rest, e);
        hide Check;
    }
  }

  lemma NormGen(a: Assignment, sep: string, mean: Num, dev: Num, rest: string, found: bool, e: nat)
    requires Blanks(sep) && FitsNum(mean) && FitsNum(dev) && Boundary(rest)
    ensures NormWords(a, In(sep + ("GENLINEAR" + NumText(mean, NumText(dev, rest))), None, e), found) ==
      NormWords(a.(policy := Linear(mean.value, dev.value)), In(rest, None, e), true)
  {
    hide FitsNum, IsWord, Boundary, NumText, Number;
    ArgsBoundary(SayGen(mean, dev), rest);
    Round(sep, "GENLINEAR", NumText(mean, NumText(dev, rest)), e);
    hide Check;
    NumRead(dev, rest, e);
    NumRead(mean, NumText(dev, rest), e);
    SecondNumber(mean.value, dev, rest, e);
  }

  lemma NormScaled(a: Assignment, sep: string, x: Num, rest: string, found: bool, e: nat)
    requires Blanks(sep) && FitsNum(x) && Boundary(rest)
    ensures NormWords(a, In(sep + ("SCALE" + NumText(x, rest)), None, e), found) ==
      NormWords(a.(policy := Scale(x.value)), In(rest, None, e), true)
  {
    hide FitsNum, IsWord, Boundary, NumText, Number;
    ArgsBoundary(SayScale(x), rest);
    Round(sep, "SCALE", NumText(x, rest), e);
    hide Check;
    NumRead(x, rest, e);
  }

  lemma SecondNumber(m: real, dev: Num, rest: string, e: nat)
    requires FitsNum(dev) && Boundary(rest)
    ensures NumberAfter(Read(Some(m), In(NumText(dev, rest), None, e))) ==
      Fine(Read(Some(dev.value), In(rest, None, e)))
  {
    hide Scan;
    PeekWord(dev.sep, dev.text, rest, e);
  }

  lemma {:induction false} NormWordsRead(a: Assignment, ws: seq<NormWord>, rest: string, found: bool, e: nat)
    requires FitsNorms(ws)
    ensures NormWords(a, In(NormText(ws, EndLine(rest)), None, e), found) ==
      Fine(Read((SaidAll(a, ws), found || ws != []), In(EndLine(rest), None, e)))
    decreases |ws|
  {
    hide FitsNorm, NormWords, Boundary, Args, Key;
    if ws == [] {
      NormStops(a, rest, found, e);
    } else {
      var w, more := ws[0], NormText(ws[1..], EndLine(rest));
      assert w in ws;
      Boundaries("", rest);
      NormBoundary(ws[1..], EndLine(rest));
      FitsAnySep(w);
      NormStep(a, w.sep, w.kind, more, found, e);
      NormWordsRead(Said(a, w.kind), ws[1..], rest, true, e);
    }
  }

  lemma FitsAnySep(w: NormWord)
    requires FitsNorm(w)
    ensures Blanks(w.sep) && FitsNorm(NormWord(" ", w.kind))
  {
  }

  /** A NORMALIZE line is the sequence of its keywords, the last of a kind counting; an empty one is an
      error and means RAW BYCLASS. */
  lemma NormRead(a: Assignment, ws: seq<NormWord>, rest: string, e: nat)
    requires FitsNorms(ws)
    ensures Norm(a, In(NormText(ws, EndLine(rest)), None, e)) ==
      if ws == [] then Fine(Read(a.(policy := Raw, group := ByClass), In(EndLine(rest), None, e + 1)))
      else Fine(Read(SaidAll(a, ws), In(EndLine(rest), None, e)))
  {
    hide NormWords, NormText, FitsNorms;
    NormWordsRead(a, ws, rest, false, e);
  }

  // ----- blank lines and comments -------------------------------------------------------------------

  datatype Junk = Comment(text: string) | Blank(text: string)

  ghost predicate FitsJunk(j: Junk) {
    match j
    case Comment(t) => forall c :: c in t ==> c != '\n'
    case Blank(t) => Blanks(t)
  }

  /** "# text" and a line of nothing but separators; those of a blank line stand after its newline. */
  function JunkText(js: seq<Junk>, rest: string): string {
    if js == [] then rest else
      match js[0]
      case Comment(t) => "#" + (t + EndLine(JunkText(js[1..], rest)))
      case Blank(t) => "\n" + (t + JunkText(js[1..], rest))
  }

  /** Text that is neither blank nor a comment comes next. */
  ghost predicate Starts(s: string) {
    s != [] && !Ws(s[0]) && s[0] != '\n' && s[0] != '#'
  }

  lemma {:induction false} JunkSkipped(js: seq<Junk>, rest: string)
    requires (forall j :: j in js ==> FitsJunk(j)) && Starts(rest)
    ensures BlanksGobbled(JunkText(js, rest)) == Fine(rest) && Gobbled(JunkText(js, rest)) == JunkText(js, rest)
    decreases |js|
  {
    if js != [] {
      var more := JunkText(js[1..], rest);
      assert js[0] in js;
      JunkSkipped(js[1..], rest);
      match js[0] {
        case Comment(t) =>
          var s := t + EndLine(more);
          LineLenOf(t, more);
          assert s[|t| + 1..] == more;
          assert ("#" + s)[1..] == s;
        case Blank(t) =>
          BlanksDoNotMatter(t, more);
          assert ("\n" + (t + more))[1..] == t + more;
      }
    }
  }

  // ----- the lines of an assignment -------------------------------------------------------------------

  /** A line after its lead of separators, and what may stand between it and the next one. */
  datatype Line = Line(lead: string, said: Statement, junk: seq<Junk>)

  datatype Statement = SayWeight(x: Num) | SayMax(x: Num) | SayNorm(ws: seq<NormWord>)

  function LineKey(t: Statement): string {
    match t
    case SayWeight(_) => "WEIGHT"
    case SayMax(_) => "MAXIMUM"
    case SayNorm(_) => "NORMALIZE"
  }

  function LineRest(t: Statement, rest: string): string {
    match t
    case SayWeight(x) => NumText(x, rest)
    case SayMax(x) => NumText(x, rest)
    case SayNorm(ws) => NormText(ws, rest)
  }

  function LinesText(ls: seq<Line>, rest: string): string {
    if ls == [] then rest else
      ls[0].lead + (LineKey(ls[0].said) + LineRest(ls[0].said, EndLine(JunkText(ls[0].junk, LinesText(ls[1..], rest)))))
  }

  /** What a line means. */
  function SaidLine(a: Assignment, t: Statement): Assignment {
    match t
    case SayWeight(x) => a.(weight := Some(x.value))
    case SayMax(x) => a.(max := x.value)
    case SayNorm(ws) => if ws == [] then a.(policy := Raw, group := ByClass) else SaidAll(a, ws)
  }

  function SaidLines(a: Assignment, ls: seq<Line>): Assignment
    decreases |ls|
  {
    if ls == [] then a else SaidLines(SaidLine(a, ls[0].said), ls[1..])
  }

  /** A NORMALIZE line without a keyword is an error. */
  function LineErrors(ls: seq<Line>): nat {
    if ls == [] then 0 else (if ls[0].said == SayNorm([]) then 1 else 0) + LineErrors(ls[1..])
  }

  ghost predicate FitsStatement(t: Statement) {
    match t
    case SayWeight(x) => FitsNum(x)
    case SayMax(x) => FitsNum(x)
    case SayNorm(ws) => FitsNorms(ws)
  }

  /** Behind junk a line has no lead, as the reader looks for comments in the first column only. */
  ghost predicate FitsLines(ls: seq<Line>, rest: string) {
    ls != [] ==>
      && Blanks(ls[0].lead) && FitsStatement(ls[0].said) && (forall j :: j in ls[0].junk ==> FitsJunk(j))
      && (ls[0].junk != [] ==> Starts(LinesText(ls[1..], rest)))
      && FitsLines(ls[1..], rest)
  }

  lemma LineKeys(t: Statement)
    ensures IsWord(LineKey(t)) && LineKey(t)[0] != '#'
  {
  }

  lemma RestBoundary(t: Statement, rest: string)
    requires FitsStatement(t) && Boundary(rest)
    ensures Boundary(LineRest(t, rest))
  {
    hide Scan;
    if t.SayNorm? { NormBoundary(t.ws, rest); }
  }

  /** The line's keyword has been read. */
  lemma Opens(i: In, lead: string, key: string, rest: string, e: nat)
    requires Blanks(lead) && IsWord(key) && Boundary(rest) && At(i, lead + (key + rest), e)
    ensures Check(i, "WEIGHT") == Fine(Checked("WEIGHT" == key, key, rest, e))
    ensures Check(In(rest, Some(key), e), "NORMALIZE") == Fine(Checked("NORMALIZE" == key, key, rest, e))
    ensures Check(In(rest, Some(key), e), "MAXIMUM") == Fine(Checked("MAXIMUM" == key, key, rest, e))
  {
    PeekWord(lead, key, rest, e);
  }

  /** After the line the reader stands at the next one, or behind the last. */
  lemma Closes(js: seq<Junk>, next: string, e: nat)
    requires (forall j :: j in js ==> FitsJunk(j)) && (if js == [] then NextQuiet(next) else Starts(next))
    ensures NewlineExpected(In(EndLine(JunkText(js, next)), None, e)) == Fine(In(next, None, e))
  {
    var s := EndLine(JunkText(js, next));
    assert s[1..] == JunkText(js, next) && Gobbled(s) == s;
    if js != [] { JunkSkipped(js, next); }
  }

  ghost predicate NextQuiet(s: string) {
    s != [] ==> s[0] != '#' && s[0] != '\n'
  }

  lemma DetailsStep(a: Assignment, i: In, l: Line, next: string, e: nat)
    requires Blanks(l.lead) && FitsStatement(l.said) && (forall j :: j in l.junk ==> FitsJunk(j))
    requires if l.junk == [] then NextQuiet(next) else Starts(next)
    requires At(i, l.lead + (LineKey(l.said) + LineRest(l.said, EndLine(JunkText(l.junk, next)))), e)
    ensures Details(a, i) ==
      Details(SaidLine(a, l.said), In(next, None, e + if l.said == SayNorm([]) then 1 else 0))
  {
    var end := EndLine(JunkText(l.junk, next));
    Boundaries("", JunkText(l.junk, next));
    RestBoundary(l.said, end);
    LineKeys(l.said);
    Opens(i, l.lead, LineKey(l.said), LineRest(l.said, end), e);
    Closes(l.junk, next, e);
    Closes(l.junk, next, e + 1);
    match l.said {
      case SayWeight(x) => NumRead(x, end, e);
      case SayMax(x) => NumRead(x, end, e);
      case SayNorm(ws) => NormRead(a, ws, JunkText(l.junk, next), e);
    }
    hide At, Check, Number, Norm, NewlineExpected, Boundary, IsWord, FitsNum, FitsNorms, NormText, NumText;
  }

  lemma {:induction false} LinesQuiet(ls: seq<Line>, rest: string)
    requires FitsLines(ls, rest) && NextLine(rest)
    ensures NextQuiet(LinesText(ls, rest))
  {
    Separators();
    if ls != [] {
      LineKeys(ls[0].said);
      var l := ls[0];
      var s := LineKey(l.said) + LineRest(l.said, EndLine(JunkText(l.junk, LinesText(ls[1..], rest))));
      assert (l.lead + s)[0] == if l.lead == [] then LineKey(l.said)[0] else l.lead[0];
    }
  }

  lemma LinesAt(ls: seq<Line>, rest: string, e: nat)
    requires FitsLines(ls, rest) && AfterAssignment(rest)
    ensures At(In(LinesText(ls, rest), None, e), LinesText(ls, rest), e)
  {
    hide FitsStatement;
    if ls == [] {
      AtStart(rest, {"ASSIGNMENT", "SECTION"}, e);
    } else {
      var l := ls[0];
      var end := EndLine(JunkText(l.junk, LinesText(ls[1..], rest)));
      Boundaries("", JunkText(l.junk, LinesText(ls[1..], rest)));
      RestBoundary(l.said, end);
      LineKeys(l.said);
      PeekWord(l.lead, LineKey(l.said), LineRest(l.said, end), e);
    }
  }

  /** The lines of an assignment mean what they say one after the other, in any order and number; only
      NORMALIZE lines without a keyword are reported. */
  lemma {:induction false} LinesRead(a: Assignment, ls: seq<Line>, rest: string, i: In, e: nat)
    requires FitsLines(ls, rest) && AfterAssignment(rest) && At(i, LinesText(ls, rest), e)
    ensures Details(a, i) == Fine(Read(SaidLines(a, ls), Peek(rest, e + LineErrors(ls)).value))
    decreases |ls|
  {
    hide FitsStatement, At, Details, Peek, Next, Starts, FitsJunk;
    if ls == [] {
      DetailsEnd(a, i, rest, e);
    } else {
      var l, next := ls[0], LinesText(ls[1..], rest);
      var e2 := e + if l.said == SayNorm([]) then 1 else 0;
      NextIsLine(rest, {"ASSIGNMENT", "SECTION"});
      LinesQuiet(ls[1..], rest);
      DetailsStep(a, i, l, next, e);
      LinesAt(ls[1..], rest, e2);
      LinesRead(SaidLine(a, l.said), ls[1..], rest, In(next, None, e2), e2);
    }
  }

  // ----- what is reported and what stops the reader -----------------------------------------------------

  /** A token that does not fit into the buffer with its end mark stops the reader, any shorter one does
      not. */
  lemma TokenFits(sep: string, w: string, rest: string, e: nat)
    requires Blanks(sep) && w != [] && (forall k :: 0 <= k < |w| ==> !Ws(w[k]) && w[k] != '\n') && Boundary(rest)
    ensures Peek(sep + (w + rest), e) == if |w| <= 63 then Fine(In(rest, Some(w), e)) else Stop
  {
    BlanksDoNotMatter(sep, w + rest);
    assert Gobbled(w + rest) == w + rest;
    WordLenOf(w, rest);
    assert (w + rest)[|w|..] == rest && (w + rest)[..|w|] == w;
  }

  /** A word where a number is expected is one error; it stays for the next reader. */
  lemma BadNumber(sep: string, w: string, rest: string, e: nat)
    requires Blanks(sep) && IsWord(w) && Boundary(rest) && Scan(w) == None
    ensures Number(In(sep + (w + rest), None, e)) == Fine(Read(None, In(rest, Some(w), e + 1)))
  {
    hide Scan;
    PeekWord(sep, w, rest, e);
  }

  /** Anything left on a line, buffered or not, is one error, and the line is skipped. */
  lemma LeftOver(i: In, t: string, next: string)
    requires (forall c :: c in t ==> c != '\n') && i.left == t + EndLine(next)
    requires i.token.Some? || (Gobbled(i.left) == i.left && t != [])
    ensures NewlineExpected(i) == Fine(In(next, None, i.errors + 1))
  {
    LineLenOf(t, next);
    assert (t + EndLine(next))[|t| + 1..] == next;
    if i.token.None? {
      assert t[0] in t && (t + EndLine(next))[0] == t[0];
      assert (t + EndLine(next))[1..] == t[1..] + EndLine(next);
      assert forall c :: c in t[1..] ==> c in t;
      LineLenOf(t[1..], next);
      assert (t[1..] + EndLine(next))[|t| - 1 + 1..] == next;
    }
  }

  /** A score for an assignment that was not declared stops the reader. */
  lemma Undeclared(asgts: seq<Assignment>, sep: string, name: string, rest: string, i: In, e: nat)
    requires Blanks(sep) && IsWord(name) && Boundary(rest) && (forall a :: a in asgts ==> a.name != name)
    requires Check(i, "SCORE") == Fine(Read(true, In(sep + (name + rest), None, e)))
    ensures Scores(asgts, i) == Stop
  {
    PeekWord(sep, name, rest, e);
    forall k | 0 <= k < |asgts| ensures asgts[k].name != name {
      assert asgts[k] in asgts;
    }
  }

  // ----- what is printed but not read back --------------------------------------------------------------

  /** The first n tokens of s; none if the reader stops or the line ends before. */
  ghost function Tokens(s: string, n: nat): Option<seq<string>>
    decreases n
  {
    if n == 0 then Some([]) else
      match Peek(s, 0)
      case Stop => None
      case Fine(i) =>
        if i.token.None? then None
        else match Tokens(i.left, n - 1)
          case None => None
          case Some(ts) => Some([i.token.value] + ts)
  }

  lemma TokensWord(sep: string, w: string, rest: string, n: nat)
    requires Blanks(sep) && IsWord(w) && Boundary(rest)
    ensures Tokens(sep + (w + rest), n + 1) ==
      match Tokens(rest, n) case None => None case Some(ts) => Some([w] + ts)
  {
    PeekWord(sep, w, rest, 0);
  }

  lemma OneMoreToken(s: string, sep: string, w: string, rest: string, n: nat, ts: seq<string>)
    requires s == sep + (w + rest) && Blanks(sep) && IsWord(w) && Boundary(rest) && Tokens(rest, n) == Some(ts)
    ensures Tokens(s, n + 1) == Some([w] + ts) && (sep != [] ==> Boundary(s))
  {
    TokensWord(sep, w, rest, n);
  }

  lemma FiveTokens(n: string, l: string, m: string, d: string, g: string, end: string) returns (ts: seq<string>)
    requires IsWord(n) && IsWord(l) && IsWord(m) && IsWord(d) && IsWord(g) && Boundary(end)
    ensures Tokens("  " + (n + (" " + (l + (": " + (m + (", " + (d + (" " + (g + end))))))))), 5) == Some(ts)
    ensures ts == [n, l, m, d, g]
  {
    hide IsWord, Tokens, Boundary, Blanks;
    Separators();
    TwoBlanks();
    var s3 := " " + (g + end);
    var s2 := ", " + (d + s3);
    var s1 := ": " + (m + s2);
    var s0 := " " + (l + s1);
    NoTokens(end);
    OneMoreToken(s3, " ", g, end, 0, []);
    OneMoreToken(s2, ", ", d, s3, 1, [g] + []);
    OneMoreToken(s1, ": ", m, s2, 2, [d] + ([g] + []));
    OneMoreToken(s0, " ", l, s1, 3, [m] + ([d] + ([g] + [])));
    OneMoreToken("  " + (n + s0), "  ", n, s0, 4, [l] + ([m] + ([d] + ([g] + []))));
    ts := [n] + ([l] + ([m] + ([d] + ([g] + []))));
  }

  lemma TwoBlanks()
    ensures Blanks(", ") && Blanks(": ") && Blanks("  ")
  {
  }

  /** A LINEAR policy is printed with its mean, then its deviation, then its group. */
  lemma LinearPrinted(a: Assignment, rest: string)
    requires a.policy.Linear? && IsNumber(a.policy.mean) && IsNumber(a.policy.stddev)
    ensures Tokens(PutPolicy(a, rest), 5) ==
      Some(["NORMALIZE", "LINEAR", F(a.policy.mean), F(a.policy.stddev),
        if a.group.ByClass? then "BYCLASS" else "BYSECTION"])
  {
    hide F, IsNumber, Tokens;
    var m, d, g := F(a.policy.mean), F(a.policy.stddev), if a.group.ByClass? then "BYCLASS" else "BYSECTION";
    NumberIsWord(a.policy.mean);
    NumberIsWord(a.policy.stddev);
    NormKeywords();
    DetailKeywords();
    var _ := FiveTokens("NORMALIZE", "LINEAR", m, d, g, EndLine(rest));
    LinearLine(a, m, d, g, rest);
  }

  lemma LinearLine(a: Assignment, m: string, d: string, g: string, rest: string)
    requires a.policy.Linear? && m == F(a.policy.mean) && d == F(a.policy.stddev)
    requires g == if a.group.ByClass? then "BYCLASS" else "BYSECTION"
    ensures PutPolicy(a, rest) ==
      "  " + ("NORMALIZE" + (" " + ("LINEAR" + (": " + (m + (", " + (d + (" " + (g + EndLine(rest))))))))))
  {
    hide F;
    var s := Field(d, PutGroup(a.group, rest));
    assert ":" + Field(m, "," + s) == ": " + (m + ("," + s));
    assert "," + s == ", " + (d + (" " + (g + EndLine(rest))));
  }

  lemma NoTokens(s: string)
    ensures Tokens(s, 0) == Some([])
  {
  }
}
